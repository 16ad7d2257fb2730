/** The reservation services of the current API: lookups by customer and by car,
    the three classifier views against today's date, and the unchecked insert.
    The joins with customers, users and cars only decorate the reservation rows
    the `where` clause keeps, so each view is a filter over the reservation table. */
module ReservationService {
  import opened Common
  import opened Entities
  import opened Dates
  import opened Tables
  import Db

  /** Returned: a return date is recorded and lies before today. */
  predicate IsReturned(x: Reservation, today: string)
  {
    x.returnDate.Some? && DateLess(x.returnDate.value, today)
  }

  /** Currently reserved: picked up today or earlier, and not back before tomorrow. */
  predicate IsCurrentlyReserved(x: Reservation, today: string)
  {
    DateAtMost(x.pickupDate, today) && (x.returnDate.None? || DateLess(today, x.returnDate.value))
  }

  function ReturnedOn(today: string): Reservation -> bool { (x: Reservation) => IsReturned(x, today) }
  function CurrentOn(today: string): Reservation -> bool { (x: Reservation) => IsCurrentlyReserved(x, today) }
  function OfCustomer(customerId: int): Reservation -> bool { (x: Reservation) => x.customerID == customerId }
  function OfCar(carId: int): Reservation -> bool { (x: Reservation) => x.carID == carId }
  function OpenOf(customerId: int): Reservation -> bool { (x: Reservation) => x.customerID == customerId && x.returnDate.None? }
  function NamedUser(name: string): User -> bool { (u: User) => u.firstName == name }

  /** getReservationByCustomerIdService */
  function ReservationsByCustomer(rows: seq<Reservation>, customerId: int): (r: seq<Reservation>)
    ensures forall x :: x in r <==> x in rows && x.customerID == customerId
    ensures |r| <= |rows|
  {
    Where(rows, OfCustomer(customerId))
  }

  /** getReservationByCarIdService */
  function ReservationsByCar(rows: seq<Reservation>, carId: int): (r: seq<Reservation>)
    ensures forall x :: x in r <==> x in rows && x.carID == carId
    ensures |r| <= |rows|
  {
    Where(rows, OfCar(carId))
  }

  /** getReturnedCarsService, with `clock` the reading of `new Date().toISOString()`. */
  function ReturnedCars(rows: seq<Reservation>, clock: string): (r: seq<Reservation>)
    ensures forall x :: x in r <==>
      x in rows && x.returnDate.Some? && DateLess(x.returnDate.value, Today(clock))
  {
    Where(rows, ReturnedOn(Today(clock)))
  }

  /** getCurrentlyReservedCarsService */
  function CurrentlyReservedCars(rows: seq<Reservation>, clock: string): (r: seq<Reservation>)
    ensures forall x :: x in r <==>
      x in rows && DateAtMost(x.pickupDate, Today(clock)) &&
      (x.returnDate.None? || DateLess(Today(clock), x.returnDate.value))
  {
    Where(rows, CurrentOn(Today(clock)))
  }

  /** `users[i]` is the first user, in storage order, whose first name is `name`. */
  predicate IsFirstNamed(users: seq<User>, name: string, i: int)
  {
    0 <= i < |users| && users[i].firstName == name &&
    forall j :: 0 <= j < i ==> users[j].firstName != name
  }

  /** `kept` holds exactly the reservations of `rows` that carry `customerId` and
      have no return date. */
  ghost predicate AreOpenReservationsOf(kept: seq<Reservation>, rows: seq<Reservation>, customerId: int)
  {
    forall x :: x in kept <==> x in rows && x.customerID == customerId && x.returnDate.None?
  }

  /** getCurrentlyReservedCarsByCustomerService: the first user whose first name is
      `customerName` is looked up; the reservations kept are the open ones whose
      customerID equals that user's userID. */
  function CurrentlyReservedByCustomerName(users: seq<User>, rows: seq<Reservation>, customerName: string)
    : (r: Result<seq<Reservation>>)
    ensures r.Err? <==> forall u :: u in users ==> u.firstName != customerName
    ensures r.Err? ==> r.message == "Customer not found"
    ensures r.Ok? ==> exists i :: IsFirstNamed(users, customerName, i) &&
                                  AreOpenReservationsOf(r.value, rows, users[i].userID)
  {
    match FindFirst(users, NamedUser(customerName))
    case None =>
      assert forall u :: u in users ==> !NamedUser(customerName)(u);
      Err("Customer not found")
    case Some(customer) =>
      var kept := Where(rows, OpenOf(customer.userID));
      assert exists i :: IsFirstNamed(users, customerName, i) && AreOpenReservationsOf(kept, rows, users[i].userID)
      by {
        var i :| 0 <= i < |users| && users[i] == customer && NamedUser(customerName)(users[i]) &&
                 forall j :: 0 <= j < i ==> !NamedUser(customerName)(users[j]);
        assert IsFirstNamed(users, customerName, i);
        assert AreOpenReservationsOf(kept, rows, users[i].userID);
      }
      Ok(kept)
  }

  /** createReservationService: the row is inserted as given, with no check against
      the reservations already stored; the rows `returning()` yields are returned
      and a driver error propagates unchanged. */
  method CreateReservation(db: Db.Database, reservation: Reservation, reply: InsertReply)
    returns (r: Result<seq<Reservation>>)
    modifies db`reservations
    ensures reply == Stored ==> r == Ok([reservation]) && db.reservations == old(db.reservations) + [reservation]
    ensures reply == NoRow ==> r == Ok([]) && db.reservations == old(db.reservations)
    ensures reply.Fails? ==> r == Err(reply.message) && db.reservations == old(db.reservations)
  {
    match reply {
      case Stored =>
        db.reservations := db.reservations + [reservation];
        r := Ok([reservation]);
      case NoRow =>
        r := Ok([]);
      case Fails(message) =>
        r := Err(message);
    }
  }

  /** No reservation is both returned and currently reserved. */
  lemma ReturnedAndCurrentDisjoint(rows: seq<Reservation>, clock: string)
    ensures forall x :: !(x in ReturnedCars(rows, clock) && x in CurrentlyReservedCars(rows, clock))
  {
    var today := Today(clock);
    forall x | x in ReturnedCars(rows, clock) && x in CurrentlyReservedCars(rows, clock)
      ensures false
    {
      LexLessAsymmetric(x.returnDate.value, today);
    }
  }

  /** A reservation due back today is in neither view: both comparisons are strict. */
  lemma DueTodayInNeither(rows: seq<Reservation>, clock: string, x: Reservation)
    requires x.returnDate == Some(Today(clock))
    ensures x !in ReturnedCars(rows, clock)
    ensures x !in CurrentlyReservedCars(rows, clock)
  {
    LexLessIrreflexive(Today(clock));
  }

  /** Every reservation picked up by today is returned, currently reserved, or
      due back today; the three cases exclude each other. */
  lemma PickedUpIsClassified(rows: seq<Reservation>, clock: string, x: Reservation)
    requires x in rows && DateAtMost(x.pickupDate, Today(clock))
    ensures x in ReturnedCars(rows, clock) || x in CurrentlyReservedCars(rows, clock) ||
            x.returnDate == Some(Today(clock))
  {
    if x.returnDate.Some? {
      LexLessTotal(x.returnDate.value, Today(clock));
    }
  }

  /** A reservation whose pickup date is still ahead is not currently reserved. */
  lemma FuturePickupNotCurrent(rows: seq<Reservation>, clock: string, x: Reservation)
    requires DateLess(Today(clock), x.pickupDate)
    ensures x !in CurrentlyReservedCars(rows, clock)
  {
    LexLessAsymmetric(Today(clock), x.pickupDate);
    LexLessIrreflexive(x.pickupDate);
  }

  /** The by-name view keeps only open reservations, so one still running but
      with a return date ahead is currently reserved yet absent from it. */
  lemma ByNameOmitsScheduledReturns(users: seq<User>, rows: seq<Reservation>, customerName: string,
                                    clock: string, x: Reservation)
    requires x in rows && x.returnDate.Some? && DateAtMost(x.pickupDate, Today(clock)) &&
             DateLess(Today(clock), x.returnDate.value)
    requires CurrentlyReservedByCustomerName(users, rows, customerName).Ok?
    ensures x in CurrentlyReservedCars(rows, clock)
    ensures x !in CurrentlyReservedByCustomerName(users, rows, customerName).value
  {
  }

  /** A stored reservation extends each view exactly when it meets the view's
      condition, and the rows already there keep their order. */
  lemma {:induction false} CreateExtendsViews(rows: seq<Reservation>, x: Reservation, clock: string)
    ensures ReturnedCars(rows + [x], clock) ==
      ReturnedCars(rows, clock) + (if IsReturned(x, Today(clock)) then [x] else [])
    ensures CurrentlyReservedCars(rows + [x], clock) ==
      CurrentlyReservedCars(rows, clock) + (if IsCurrentlyReserved(x, Today(clock)) then [x] else [])
    ensures ReservationsByCustomer(rows + [x], x.customerID) == ReservationsByCustomer(rows, x.customerID) + [x]
    ensures ReservationsByCar(rows + [x], x.carID) == ReservationsByCar(rows, x.carID) + [x]
  {
    WhereSnoc(rows, x, ReturnedOn(Today(clock)));
    WhereSnoc(rows, x, CurrentOn(Today(clock)));
    WhereSnoc(rows, x, OfCustomer(x.customerID));
    WhereSnoc(rows, x, OfCar(x.carID));
  }

  function AccountOf(userId: int): Customer -> bool { (c: Customer) => c.userID == userId }

  /** Some customer row belongs to user `userId`. */
  predicate HasAccount(customers: seq<Customer>, userId: int)
  {
    exists c :: c in customers && c.userID == userId
  }

  /** `customers[k]` is the first customer row, in storage order, of user `userId`. */
  predicate IsFirstAccount(customers: seq<Customer>, userId: int, k: int)
  {
    0 <= k < |customers| && customers[k].userID == userId &&
    forall j :: 0 <= j < k ==> customers[j].userID != userId
  }

  /** The by-name view as its join intends it: the first user with that first name,
      then that user's first customer row, then the open reservations carrying that
      row's customerID. A name with no user, or a user with no customer row, is
      reported as "Customer not found". */
  function CurrentlyReservedByCustomerAccount(users: seq<User>, customers: seq<Customer>,
                                              rows: seq<Reservation>, customerName: string)
    : (r: Result<seq<Reservation>>)
    ensures r.Err? ==> r.message == "Customer not found"
    ensures r.Ok? <==> exists i :: IsFirstNamed(users, customerName, i) && HasAccount(customers, users[i].userID)
    ensures r.Ok? ==> exists i, k :: IsFirstNamed(users, customerName, i) &&
                                     IsFirstAccount(customers, users[i].userID, k) &&
                                     AreOpenReservationsOf(r.value, rows, customers[k].customerID)
  {
    match FindFirst(users, NamedUser(customerName))
    case None =>
      assert forall u :: u in users ==> !NamedUser(customerName)(u);
      forall i | 0 <= i < |users| ensures users[i].firstName != customerName {
        assert users[i] in users;
      }
      Err("Customer not found")
    case Some(user) =>
      assert forall i | IsFirstNamed(users, customerName, i) :: users[i] == user by {
        var i0 :| 0 <= i0 < |users| && users[i0] == user && NamedUser(customerName)(users[i0]) &&
                  forall j :: 0 <= j < i0 ==> !NamedUser(customerName)(users[j]);
        forall i | IsFirstNamed(users, customerName, i) ensures users[i] == user {
          FirstNamedUnique(users, customerName, i, i0);
        }
      }
      match FindFirst(customers, AccountOf(user.userID))
      case None =>
        assert forall c :: c in customers ==> !AccountOf(user.userID)(c);
        Err("Customer not found")
      case Some(customer) =>
        var kept := Where(rows, OpenOf(customer.customerID));
        assert exists i, k :: IsFirstNamed(users, customerName, i) &&
                              IsFirstAccount(customers, users[i].userID, k) &&
                              AreOpenReservationsOf(kept, rows, customers[k].customerID)
        by {
          var i :| 0 <= i < |users| && users[i] == user && NamedUser(customerName)(users[i]) &&
                   forall j :: 0 <= j < i ==> !NamedUser(customerName)(users[j]);
          var k :| 0 <= k < |customers| && customers[k] == customer && AccountOf(user.userID)(customers[k]) &&
                   forall j :: 0 <= j < k ==> !AccountOf(user.userID)(customers[j]);
          assert IsFirstNamed(users, customerName, i);
          assert IsFirstAccount(customers, users[i].userID, k);
          assert AreOpenReservationsOf(kept, rows, customers[k].customerID);
        }
        assert customer in customers && customer.userID == user.userID;
        Ok(kept)
  }

  /** The first user with a name is unique. */
  lemma FirstNamedUnique(users: seq<User>, name: string, i: int, j: int)
    requires IsFirstNamed(users, name, i) && IsFirstNamed(users, name, j)
    ensures i == j
  {
  }

  /** Tables in which the view as written goes wrong: Ann (user 1) has no customer
      row, John (user 2) is customer 1 and holds the open reservation 10. */
  const Ann := User(1, "Ann", "A", "ann@example.com", "pw", None, None, Some("admin"), true, None)
  const John := User(2, "John", "J", "john@example.com", "pw", None, None, Some("user"), true, None)
  const Held := Reservation(10, 1, 5, "2025-06-15", "2025-07-01", None)

  /** As written, asking for Ann returns John's reservation... */
  lemma ByNameLeaksToOtherUser()
    ensures CurrentlyReservedByCustomerName([Ann, John], [Held], "Ann") == Ok([Held])
  {
    assert FindFirst([Ann, John], NamedUser("Ann")) == Some(Ann);
    assert Where([Held], OpenOf(1)) == [Held] by {
      assert [Held][1..] == [];
      assert OpenOf(1)(Held);
    }
  }

  /** ...and asking for John returns nothing. */
  lemma ByNameMissesOwnReservation()
    ensures CurrentlyReservedByCustomerName([Ann, John], [Held], "John") == Ok([])
  {
    assert FindFirst([Ann, John], NamedUser("John")) == Some(John) by {
      assert [Ann, John][1..] == [John];
      assert !NamedUser("John")(Ann);
    }
    assert Where([Held], OpenOf(2)) == [] by {
      assert [Held][1..] == [];
      assert !OpenOf(2)(Held);
    }
  }

  /** Through the customer row, John gets his reservation... */
  lemma ByAccountFindsOwnReservation()
    ensures CurrentlyReservedByCustomerAccount([Ann, John], [Customer(1, 2)], [Held], "John") == Ok([Held])
  {
    assert FindFirst([Ann, John], NamedUser("John")) == Some(John) by {
      assert [Ann, John][1..] == [John];
      assert !NamedUser("John")(Ann);
    }
    assert FindFirst([Customer(1, 2)], AccountOf(2)) == Some(Customer(1, 2));
    assert Where([Held], OpenOf(1)) == [Held] by {
      assert [Held][1..] == [];
      assert OpenOf(1)(Held);
    }
  }

  /** ...and Ann, who has no customer row, is not found. */
  lemma ByAccountRejectsNonCustomer()
    ensures CurrentlyReservedByCustomerAccount([Ann, John], [Customer(1, 2)], [Held], "Ann") == Err("Customer not found")
  {
    assert FindFirst([Ann, John], NamedUser("Ann")) == Some(Ann);
    assert FindFirst([Customer(1, 2)], AccountOf(1)) == None by {
      assert [Customer(1, 2)][1..] == [];
      assert !AccountOf(1)(Customer(1, 2));
    }
  }
}
