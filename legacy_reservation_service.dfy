/** The older reservation services. Their lookups by customer and by car
    have the same conditions as the current ones, and their insert is the same
    (ReservationService.ReservationsByCustomer, ReservationsByCar,
    CreateReservation). What differs: `now` is `new Date()` itself. node-postgres
    sends a `Date` as text in the server's local time, and a comparison with a
    date column reads that text as a date, dropping the time. So each view
    compares with the server's local calendar date, where the current views take
    the UTC date of `toISOString()`. The "currently reserved by customer" view
    takes a customer ID and keeps every reservation of that customer. */
module LegacyReservationService {
  import opened Common
  import opened Entities
  import opened Dates
  import opened Tables
  import ReservationService

  /** getReturnedCarsService; `now` is the date the comparison reads from `new Date()`. */
  function ReturnedCars(rows: seq<Reservation>, now: string): (r: seq<Reservation>)
    ensures forall x :: x in r <==>
      x in rows && x.returnDate.Some? && DateLess(x.returnDate.value, now)
  {
    Where(rows, ReservationService.ReturnedOn(now))
  }

  /** getCurrentlyReservedCarsService */
  function CurrentlyReservedCars(rows: seq<Reservation>, now: string): (r: seq<Reservation>)
    ensures forall x :: x in r <==>
      x in rows && DateAtMost(x.pickupDate, now) &&
      (x.returnDate.None? || DateLess(now, x.returnDate.value))
  {
    Where(rows, ReservationService.CurrentOn(now))
  }

  /** getCurrentlyReservedCarsByCustomerService: only the customer is compared; no
      condition on the return date is applied. */
  function CurrentlyReservedByCustomer(rows: seq<Reservation>, customerId: int): (r: seq<Reservation>)
    ensures forall x :: x in r <==> x in rows && x.customerID == customerId
    ensures |r| <= |rows|
  {
    Where(rows, ReservationService.OfCustomer(customerId))
  }

  /** The older "currently reserved by customer" view holds every reservation of
      the customer, returned ones included. */
  lemma ByCustomerIncludesReturned(rows: seq<Reservation>, customerId: int, now: string, x: Reservation)
    requires x in rows && x.customerID == customerId && ReservationService.IsReturned(x, now)
    ensures x in CurrentlyReservedByCustomer(rows, customerId)
    ensures x in ReturnedCars(rows, now)
  {
  }

  /** No reservation is both returned and currently reserved. */
  lemma ReturnedAndCurrentDisjoint(rows: seq<Reservation>, now: string)
    ensures forall x :: !(x in ReturnedCars(rows, now) && x in CurrentlyReservedCars(rows, now))
  {
    forall x | x in ReturnedCars(rows, now) && x in CurrentlyReservedCars(rows, now)
      ensures false
    {
      LexLessAsymmetric(x.returnDate.value, now);
    }
  }

  /** As in the current views, a reservation due back on the compared date is in
      neither view: the time of day never enters the comparison. */
  lemma DueTodayInNeither(rows: seq<Reservation>, now: string, x: Reservation)
    requires x.returnDate == Some(now)
    ensures x !in ReturnedCars(rows, now)
    ensures x !in CurrentlyReservedCars(rows, now)
  {
    LexLessIrreflexive(now);
  }

  /** When the server's local date is the UTC date of the clock, the older views
      keep exactly the rows the current ones keep, in the same order. */
  lemma SameDateViewsAgree(rows: seq<Reservation>, clock: string, now: string)
    requires Today(clock) == now
    ensures ReturnedCars(rows, now) == ReservationService.ReturnedCars(rows, clock)
    ensures CurrentlyReservedCars(rows, now) == ReservationService.CurrentlyReservedCars(rows, clock)
  {
  }
}
