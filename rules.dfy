/** The rule engine of Frontend.java as pure decisions over an abstract
    state. Each command's handler runs its checks from left to right; the
    first one that fails decides the outcome and nothing changes; only an
    accepted command changes the state, and only in its last step. "Today"
    is a parameter. */
module Rules {
  import opened Options
  import opened Text
  import opened Dates
  import opened DayArithmetic
  import opened Catalog
  import opened Seqs
  import opened Vehicles
  import opened Bookings
  import Fleets
  import Reservations

  /** What the handlers see and change: the fleet in array order, the
      mileage of every vehicle the system has created, the active bookings in
      array order and the completed trips in the order they were added. */
  datatype State = State(fleet: seq<Vehicle>, miles: map<Vehicle, int>, bookings: seq<Booking>, trips: seq<Trip>)

  /** Every vehicle in the fleet or in a booking has a mileage. */
  predicate Tracked(st: State)
  {
    (forall v :: v in st.fleet ==> v in st.miles) &&
    (forall j :: 0 <= j < |st.bookings| ==> st.bookings[j].vehicle in st.miles)
  }

  /** The message a rejected command prints, one constructor per message. */
  datatype Reason =
    | InvalidCalendarDate       // A: "- invalid calendar date."
    | NotBeforeToday            // A: "- is today or a future date."
    | InvalidMake               // A: "- invalid make."
    | InvalidMileage            // A, R: "- invalid mileage."
    | AlreadyInFleet            // A: "is already in the fleet."
    | NotInFleet                // D, B: "is not in the fleet."
    | HasBookings               // D: "- has existing bookings; cannot be removed."
    | BeginInvalid              // B: "- beginning date is not a valid calendar date."
    | BeginBeforeToday          // B: "- beginning date is not today or a future date."
    | BeginBeyondThreeMonths    // B: "- beginning date beyond 3 months."
    | EndInvalid                // B: "- ending date is not a valid calendar date."
    | EndBeforeBegin            // B: "- ending date must be equal or after the beginning date"
    | LongerThanWeek            // B: "- duration more than a week."
    | NotAvailable              // B: "- booking with B ~ E not available."
    | NotEligible               // B: "- not an eligible employee to book."
    | EmployeeConflict          // B: "- has an existing booking conflicting with the beginning date"
    | CancelNotFound            // C: "- cannot find the booking."
    | ReturnNotFound            // R: "booked with ending date E - cannot find the booking."
    | NotInOrder                // R: "- returning not in order of ending date."
    | MileageNotIncreased       // R: "Invalid mileage - current mileage: N entered mileage: M"

  /** What one command does. Crash is an exception that escapes the handler
      (Date.fromString on malformed text); Silent is a cancel or return with
      an invalid date, which prints nothing. */
  datatype Outcome =
    | Crash
    | Silent
    | Rejected(reason: Reason)
    | AddAccepted(obtained: Date, make: Make, mileage: int)
    | DeleteAccepted(vehicle: Vehicle)
    | BookAccepted(booking: Booking)
    | CancelAccepted(canceled: Booking)
    | ReturnAccepted(trip: Trip)

  predicate Accepted(o: Outcome)
  {
    o.AddAccepted? || o.DeleteAccepted? || o.BookAccepted? || o.CancelAccepted? || o.ReturnAccepted?
  }

  // ----- the scan helpers, as specifications -----

  /** overlaps: the inclusive intervals [a1, a2] and [b1, b2] meet. */
  predicate Overlaps(a1: Date, a2: Date, b1: Date, b2: Date)
  {
    Compare(a1, b2) <= 0 && Compare(b1, a2) <= 0
  }

  /** fleet.contains on a probe with this plate. */
  predicate InFleet(fleet: seq<Vehicle>, plate: string)
  {
    exists j :: 0 <= j < |fleet| && fleet[j].plate == plate
  }

  /** fleet.getByPlate: the first vehicle with the plate. */
  function VehicleByPlate(fleet: seq<Vehicle>, plate: string): Option<Vehicle>
  {
    var i := FirstIndex(fleet, Fleets.PlateIs(plate));
    if i == -1 then None else Some(fleet[i])
  }

  /** isVehicleAvailable: no booking of the plate overlaps [begin, end]. */
  predicate VehicleFree(s: seq<Booking>, plate: string, begin: Date, end: Date)
  {
    forall j :: 0 <= j < |s| && s[j].vehicle.plate == plate ==> !Overlaps(begin, end, s[j].begin, s[j].end)
  }

  /** hasEmployeeConflict: some booking of the employee overlaps [begin, end]. */
  predicate EmployeeBusy(s: seq<Booking>, e: Employee, begin: Date, end: Date)
  {
    exists j :: 0 <= j < |s| && s[j].employee == e && Overlaps(begin, end, s[j].begin, s[j].end)
  }

  /** hasVehicleBookings: some booking carries the plate. */
  predicate PlateBooked(s: seq<Booking>, plate: string)
  {
    exists j :: 0 <= j < |s| && s[j].vehicle.plate == plate
  }

  function BookingIs(begin: Date, end: Date, plate: string): Booking -> bool
  {
    (b: Booking) => b.vehicle.plate == plate && Equals(b.begin, begin) && Equals(b.end, end)
  }

  function EndingIs(end: Date, plate: string): Booking -> bool
  {
    (b: Booking) => b.vehicle.plate == plate && Equals(b.end, end)
  }

  /** findBooking: the first booking with the plate and both dates. */
  function LookupBooking(s: seq<Booking>, begin: Date, end: Date, plate: string): Option<Booking>
  {
    var i := FirstIndex(s, BookingIs(begin, end, plate));
    if i == -1 then None else Some(s[i])
  }

  /** findBookingByEndAndPlate: the first booking with the plate and ending date. */
  function LookupByEnd(s: seq<Booking>, end: Date, plate: string): Option<Booking>
  {
    var i := FirstIndex(s, EndingIs(end, plate));
    if i == -1 then None else Some(s[i])
  }

  /** earliestEndingDate: the running minimum of the ending dates, replaced
      only by a strictly earlier one; None when there is no booking. */
  function EarliestEnd(s: seq<Booking>): Option<Date>
    decreases |s|
  {
    if s == [] then None
    else
      var best := EarliestEnd(s[..|s| - 1]);
      var e := s[|s| - 1].end;
      if best.None? || Compare(e, best.value) < 0 then Some(e) else best
  }

  // ----- the five handlers -----

  /** handleAdd(plate, obtained, make, mileage). */
  function DecideAdd(st: State, today: Date, plate: string, obtainedTok: string, makeTok: string, mileageTok: string): Outcome
  {
    match FromString(obtainedTok)
    case None => Crash
    case Some(obtained) =>
      if !IsValid(obtained) then Rejected(InvalidCalendarDate)
      else if !IsBefore(obtained, today) then Rejected(NotBeforeToday)
      else match ParseMake(makeTok)
        case None => Rejected(InvalidMake)
        case Some(make) => match ParseInt(mileageTok)
          case None => Rejected(InvalidMileage)
          case Some(mileage) =>
            if mileage <= 0 then Rejected(InvalidMileage)
            else if InFleet(st.fleet, plate) then Rejected(AlreadyInFleet)
            else AddAccepted(obtained, make, mileage)
  }

  /** The state after handleAdd; `probe` is the vehicle the handler created. */
  function AfterAdd(st: State, o: Outcome, probe: Vehicle): State
  {
    if o.AddAccepted? then st.(fleet := st.fleet + [probe], miles := st.miles[probe := o.mileage]) else st
  }

  /** handleDelete(plate). */
  function DecideDelete(st: State, plate: string): Outcome
  {
    match VehicleByPlate(st.fleet, plate)
    case None => Rejected(NotInFleet)
    case Some(existing) =>
      if PlateBooked(st.bookings, plate) then Rejected(HasBookings)
      else DeleteAccepted(existing)
  }

  function AfterDelete(st: State, o: Outcome): State
  {
    if o.DeleteAccepted? then st.(fleet := Fleets.RemoveVehicle(st.fleet, o.vehicle.plate)) else st
  }

  /** handleBook(begin, end, plate, employee). */
  function DecideBook(st: State, today: Date, beginTok: string, endTok: string, plate: string, empTok: string): Outcome
  {
    match FromString(beginTok)
    case None => Crash
    case Some(begin) =>
      if !IsValid(begin) then Rejected(BeginInvalid)
      else if IsBefore(begin, today) then Rejected(BeginBeforeToday)
      else if !WithinThreeMonths(begin, today) then Rejected(BeginBeyondThreeMonths)
      else match FromString(endTok)
        case None => Crash
        case Some(end) =>
          if !IsValid(end) then Rejected(EndInvalid)
          else if Compare(end, begin) < 0 then Rejected(EndBeforeBegin)
          else if DaysSpan(begin, end) > 7 then Rejected(LongerThanWeek)
          else match VehicleByPlate(st.fleet, plate)
            case None => Rejected(NotInFleet)
            case Some(veh) =>
              if !VehicleFree(st.bookings, plate, begin, end) then Rejected(NotAvailable)
              else match ParseEmployee(empTok)
                case None => Rejected(NotEligible)
                case Some(emp) =>
                  if EmployeeBusy(st.bookings, emp, begin, end) then Rejected(EmployeeConflict)
                  else BookAccepted(Booking(begin, end, emp, veh))
  }

  function AfterBook(st: State, o: Outcome): State
  {
    if o.BookAccepted? then st.(bookings := st.bookings + [o.booking]) else st
  }

  /** handleCancel(begin, end, plate): both dates are parsed before either is
      checked. */
  function DecideCancel(st: State, beginTok: string, endTok: string, plate: string): Outcome
  {
    var b0, e0 := FromString(beginTok), FromString(endTok);
    if b0.None? || e0.None? then Crash
    else if !IsValid(b0.value) || !IsValid(e0.value) then Silent
    else match LookupBooking(st.bookings, b0.value, e0.value, plate)
      case None => Rejected(CancelNotFound)
      case Some(b) => CancelAccepted(b)
  }

  function AfterCancel(st: State, o: Outcome): State
  {
    if o.CancelAccepted? then st.(bookings := Reservations.RemoveBooking(st.bookings, o.canceled)) else st
  }

  /** handleReturn(end, plate, mileage). */
  function DecideReturn(st: State, endTok: string, plate: string, mileageTok: string): Outcome
    requires Tracked(st)
  {
    match FromString(endTok)
    case None => Crash
    case Some(end) =>
      if !IsValid(end) then Silent
      else match LookupByEnd(st.bookings, end, plate)
        case None => Rejected(ReturnNotFound)
        case Some(b) =>
          var earliest := EarliestEnd(st.bookings);
          if earliest.Some? && Compare(end, earliest.value) != 0 then Rejected(NotInOrder)
          else match ParseInt(mileageTok)
            case None => Rejected(InvalidMileage)
            case Some(newMileage) =>
              if newMileage <= 0 then Rejected(InvalidMileage)
              else
                assert b in st.bookings;
                var original := st.miles[b.vehicle];
                if newMileage <= original then Rejected(MileageNotIncreased)
                else ReturnAccepted(Trip(b, original, newMileage))
  }

  /** The state after handleReturn: the trip is archived, the vehicle gets
      the new mileage and the booking is removed. */
  function AfterReturn(st: State, o: Outcome): State
  {
    if o.ReturnAccepted? then
      st.(trips := st.trips + [o.trip],
          miles := st.miles[o.trip.booking.vehicle := o.trip.endMileage],
          bookings := Reservations.RemoveBooking(st.bookings, o.trip.booking))
    else st
  }

  // ----- the invariant the handlers keep -----

  /** Two fleet vehicles never share a plate. */
  function DistinctPlates(): (Vehicle, Vehicle) -> bool
  {
    (u: Vehicle, v: Vehicle) => u.plate != v.plate
  }

  /** Two bookings of one vehicle, or of one employee, never overlap. */
  function Compatible(): (Booking, Booking) -> bool
  {
    (a: Booking, b: Booking) =>
      (a.vehicle.plate == b.vehicle.plate ==> !Overlaps(a.begin, a.end, b.begin, b.end)) &&
      (a.employee == b.employee ==> !Overlaps(a.begin, a.end, b.begin, b.end))
  }

  /** The invariant: mileages are tracked, plates are unique in the fleet,
      every booking ends no earlier than it begins, no two bookings of one
      vehicle or of one employee overlap, and every booked vehicle is in the
      fleet. */
  predicate Inv(st: State)
  {
    Tracked(st) &&
    (forall j :: 0 <= j < |st.bookings| ==> Compare(st.bookings[j].begin, st.bookings[j].end) <= 0) &&
    Pairwise(st.fleet, DistinctPlates()) &&
    Pairwise(st.bookings, Compatible()) &&
    (forall j :: 0 <= j < |st.bookings| ==> st.bookings[j].vehicle in st.fleet)
  }
}
