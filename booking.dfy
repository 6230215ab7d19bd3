/** Booking.java and Trip.java: immutable records. A booking refers to the
    fleet's Vehicle object; a trip holds the booking it completed and the
    mileage before and after. */
module Bookings {
  import opened Text
  import opened Dates
  import opened Catalog
  import opened Vehicles

  datatype Booking = Booking(begin: Date, end: Date, employee: Employee, vehicle: Vehicle)

  /** Booking.equals: same plate, same beginning and same ending date; the
      employee is ignored. */
  predicate SameBooking(a: Booking, b: Booking)
  {
    SameVehicle(a.vehicle, b.vehicle) && Equals(a.begin, b.begin) && Equals(a.end, b.end)
  }

  /** Text form: the vehicle's text followed by [beginning B ending E:EMP]. */
  function BookingText(b: Booking): string
    reads b.vehicle
  {
    b.vehicle.ToString() + " [beginning " + Dates.ToString(b.begin) + " ending "
      + Dates.ToString(b.end) + ":" + EmployeeName(b.employee) + "]"
  }

  datatype Trip = Trip(booking: Booking, beginMileage: int, endMileage: int)

  /** Trip.equals: same underlying booking. */
  predicate SameTrip(a: Trip, b: Trip)
  {
    SameBooking(a.booking, b.booking)
  }

  /** The "mileage used" figure of Trip.toString. */
  function MileageUsed(t: Trip): int
  {
    t.endMileage - t.beginMileage
  }

  /** Text form: plate B ~ E original mileage: N current mileage: M mileage used: M-N. */
  function TripText(t: Trip): string
  {
    t.booking.vehicle.plate + " " + Dates.ToString(t.booking.begin) + " ~ " + Dates.ToString(t.booking.end)
      + " original mileage: " + IntToString(t.beginMileage) + " current mileage: " + IntToString(t.endMileage)
      + " mileage used: " + IntToString(MileageUsed(t))
  }

  // ----- properties -----

  /** Booking.equals is an equivalence, and it is value equality up to the
      employee and the vehicle's identity. */
  lemma SameBookingIsEquivalence(a: Booking, b: Booking, c: Booking)
    ensures SameBooking(a, a)
    ensures SameBooking(a, b) ==> SameBooking(b, a)
    ensures SameBooking(a, b) && SameBooking(b, c) ==> SameBooking(a, c)
    ensures SameBooking(a, b) <==> a.vehicle.plate == b.vehicle.plate && a.begin == b.begin && a.end == b.end
  {
  }
}
