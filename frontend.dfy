/** Frontend.java: the command handlers over the fleet, the reservations and
    the trip list. Each handler runs its checks in the order of the decision
    function of the same name in Rules, changes the registries only in its
    last step, and keeps Rules.Inv. The state the handlers see is View(): the
    registries' contents and the current mileage of every vehicle the
    handlers have created. Today's date is a parameter; the tokens of the
    command line are parameters too. */
module Frontends {
  import opened Options
  import opened Text
  import opened Dates
  import opened DayArithmetic
  import opened Catalog
  import opened Seqs
  import opened Vehicles
  import opened Bookings
  import opened Rules
  import RuleProperties
  import Fleets
  import Reservations
  import TripLists

  class Frontend {
    const fleet: Fleets.Fleet
    const reservations: Reservations.Reservation
    const trips: TripLists.TripList
    /** Every vehicle created by an accepted add. */
    ghost var Known: set<Vehicle>

    /** The three registries are valid and share no object with each other,
        with this front end or with the vehicles. */
    ghost predicate Wired()
      reads this, fleet, fleet.Repr, reservations, reservations.Repr, trips, trips.Repr
    {
      fleet.Valid() && reservations.Valid() && trips.Valid() &&
      fleet.Repr !! reservations.Repr && fleet.Repr !! trips.Repr && reservations.Repr !! trips.Repr &&
      this !in fleet.Repr && this !in reservations.Repr && this !in trips.Repr &&
      (forall v :: v in Known ==> v !in fleet.Repr && v !in reservations.Repr && v !in trips.Repr)
    }

    /** The mileage of every known vehicle, read from the vehicle objects. */
    ghost function MileMap(): map<Vehicle, int>
      reads this, Known
    {
      map v | v in Known :: v.mileage
    }

    ghost function View(): State
      reads this, fleet, fleet.Repr, reservations, reservations.Repr, trips, trips.Repr, Known
      requires Wired()
    {
      State(fleet.Contents(), MileMap(), reservations.Contents(), trips.Contents)
    }

    ghost predicate Valid()
      reads this, fleet, fleet.Repr, reservations, reservations.Repr, trips, trips.Repr, Known
    {
      Wired() && Inv(View())
    }

    constructor ()
      ensures Valid()
      ensures View() == State([], map[], [], [])
    {
      fleet := new Fleets.Fleet();
      reservations := new Reservations.Reservation();
      trips := new TripLists.TripList();
      Known := {};
    }

    // ----- the scan helpers -----

    /** isVehicleAvailable: no booking of the plate overlaps [begin, end]. */
    method IsVehicleAvailable(plate: string, begin: Date, end: Date) returns (free: bool)
      requires Wired()
      ensures free == VehicleFree(reservations.Contents(), plate, begin, end)
    {
      var i := 0;
      while i < reservations.Size()
        invariant 0 <= i <= reservations.Size()
        invariant forall j :: 0 <= j < i && reservations.Contents()[j].vehicle.plate == plate ==>
          !Overlaps(begin, end, reservations.Contents()[j].begin, reservations.Contents()[j].end)
      {
        var b := reservations.Get(i);
        if b.vehicle.plate == plate {
          if Overlaps(begin, end, b.begin, b.end) {
            return false;
          }
        }
        i := i + 1;
      }
      return true;
    }

    /** hasEmployeeConflict: some booking of the employee overlaps [begin, end]. */
    method HasEmployeeConflict(emp: Employee, begin: Date, end: Date) returns (busy: bool)
      requires Wired()
      ensures busy == EmployeeBusy(reservations.Contents(), emp, begin, end)
    {
      var i := 0;
      while i < reservations.Size()
        invariant 0 <= i <= reservations.Size()
        invariant forall j :: 0 <= j < i && reservations.Contents()[j].employee == emp ==>
          !Overlaps(begin, end, reservations.Contents()[j].begin, reservations.Contents()[j].end)
      {
        var b := reservations.Get(i);
        if b.employee == emp {
          if Overlaps(begin, end, b.begin, b.end) {
            return true;
          }
        }
        i := i + 1;
      }
      return false;
    }

    /** hasVehicleBookings: some booking carries the plate. */
    method HasVehicleBookings(plate: string) returns (booked: bool)
      requires Wired()
      ensures booked == PlateBooked(reservations.Contents(), plate)
    {
      var i := 0;
      while i < reservations.Size()
        invariant 0 <= i <= reservations.Size()
        invariant forall j :: 0 <= j < i ==> reservations.Contents()[j].vehicle.plate != plate
      {
        if reservations.Get(i).vehicle.plate == plate {
          return true;
        }
        i := i + 1;
      }
      return false;
    }

    /** findBooking: the first booking with the plate and both dates; None
        stands for null. */
    method FindBooking(begin: Date, end: Date, plate: string) returns (r: Option<Booking>)
      requires Wired()
      ensures r == LookupBooking(reservations.Contents(), begin, end, plate)
      ensures r.Some? ==> (r.value in reservations.Contents() && r.value.vehicle.plate == plate &&
        r.value.begin == begin && r.value.end == end)
    {
      var i := 0;
      while i < reservations.Size()
        invariant 0 <= i <= reservations.Size()
        invariant forall j :: 0 <= j < i ==> !BookingIs(begin, end, plate)(reservations.Contents()[j])
      {
        var b := reservations.Get(i);
        if b.vehicle.plate == plate && Equals(b.begin, begin) && Equals(b.end, end) {
          FirstIndexIs(reservations.Contents(), BookingIs(begin, end, plate), i);
          CompareZero(b.begin, begin);
          CompareZero(b.end, end);
          return Some(b);
        }
        i := i + 1;
      }
      FirstIndexIs(reservations.Contents(), BookingIs(begin, end, plate), -1);
      return None;
    }

    /** findBookingByEndAndPlate: the first booking with the plate and the
        ending date; None stands for null. */
    method FindBookingByEndAndPlate(end: Date, plate: string) returns (r: Option<Booking>)
      requires Wired()
      ensures r == LookupByEnd(reservations.Contents(), end, plate)
      ensures r.Some? ==> (r.value in reservations.Contents() && r.value.vehicle.plate == plate && r.value.end == end)
    {
      var i := 0;
      while i < reservations.Size()
        invariant 0 <= i <= reservations.Size()
        invariant forall j :: 0 <= j < i ==> !EndingIs(end, plate)(reservations.Contents()[j])
      {
        var b := reservations.Get(i);
        if b.vehicle.plate == plate && Equals(b.end, end) {
          FirstIndexIs(reservations.Contents(), EndingIs(end, plate), i);
          CompareZero(b.end, end);
          return Some(b);
        }
        i := i + 1;
      }
      FirstIndexIs(reservations.Contents(), EndingIs(end, plate), -1);
      return None;
    }

    /** earliestEndingDate: the least ending date over all bookings, or None
        (null) when there is none. */
    method EarliestEndingDate() returns (best: Option<Date>)
      requires Wired()
      ensures best == EarliestEnd(reservations.Contents())
      ensures best.None? <==> reservations.Contents() == []
      ensures best.Some? ==> forall j :: 0 <= j < |reservations.Contents()| ==>
        Compare(best.value, reservations.Contents()[j].end) <= 0
    {
      ghost var s := reservations.Contents();
      best := None;
      var i := 0;
      while i < reservations.Size()
        invariant 0 <= i <= |s|
        invariant best == EarliestEnd(s[..i])
      {
        var e := reservations.Get(i).end;
        if best.None? || Compare(e, best.value) < 0 {
          best := Some(e);
        }
        assert s[..i + 1][..i] == s[..i];
        i := i + 1;
      }
      assert s[..i] == s;
      RuleProperties.EarliestEndIsMin(s);
    }

    // ----- the state changes of accepted commands -----

    /** fleet.add of a new vehicle, whose mileage becomes known. */
    method CommitAdd(v: Vehicle)
      requires Wired()
      requires v !in Known && v !in fleet.Repr && v !in reservations.Repr && v !in trips.Repr
      modifies this, fleet.Repr
      ensures Wired()
      ensures View() == old(View()).(fleet := old(View()).fleet + [v], miles := old(View()).miles[v := v.mileage])
    {
      ghost var st := View();
      fleet.Add(v);
      Known := Known + {v};
      assert MileMap() == st.miles[v := v.mileage];
    }

    /** fleet.remove. */
    method CommitDelete(v: Vehicle)
      requires Wired()
      modifies fleet.Repr
      ensures Wired()
      ensures View() == old(View()).(fleet := Fleets.RemoveVehicle(old(View()).fleet, v.plate))
    {
      ghost var st := View();
      fleet.Remove(v);
      assert MileMap() == st.miles;
    }

    /** reservations.add. */
    method CommitBook(b: Booking)
      requires Wired()
      modifies reservations.Repr
      ensures Wired()
      ensures View() == old(View()).(bookings := old(View()).bookings + [b])
    {
      ghost var st := View();
      reservations.Add(b);
      assert MileMap() == st.miles;
    }

    /** reservations.remove. */
    method CommitCancel(b: Booking)
      requires Wired()
      modifies reservations.Repr
      ensures Wired()
      ensures View() == old(View()).(bookings := Reservations.RemoveBooking(old(View()).bookings, b))
    {
      ghost var st := View();
      reservations.Remove(b);
      assert MileMap() == st.miles;
    }

    /** trips.add, then setMileage on the booking's vehicle, then
        reservations.remove. */
    method CommitReturn(t: Trip)
      requires Wired() && t.booking.vehicle in Known
      modifies reservations.Repr, trips.Repr, Known
      ensures Wired()
      ensures View() == old(View()).(trips := old(View()).trips + [t],
        miles := old(View()).miles[t.booking.vehicle := t.endMileage],
        bookings := Reservations.RemoveBooking(old(View()).bookings, t.booking))
    {
      ghost var st := View();
      var veh := t.booking.vehicle;
      trips.Add(t);
      assert fleet.Valid() && fleet.Contents() == st.fleet;
      assert reservations.Valid() && reservations.Contents() == st.bookings;
      assert MileMap() == st.miles;
      veh.SetMileage(t.endMileage);
      assert MileMap() == st.miles[veh := t.endMileage];
      reservations.Remove(t.booking);
    }

    // ----- the handlers -----
    // Each handler is its chain of checks, which changes nothing, followed
    // by the one state change an accepted command makes.

    /** The checks of handleAdd; `probe` is the vehicle it creates before
        asking the fleet whether the plate is taken. */
    method CheckAdd(today: Date, plate: string, obtainedTok: string, makeTok: string, mileageTok: string)
      returns (o: Outcome, probe: Vehicle?)
      requires Valid()
      ensures o == DecideAdd(View(), today, plate, obtainedTok, makeTok, mileageTok)
      ensures o.AddAccepted? ==> (probe != null && fresh(probe) && probe.plate == plate &&
        probe.obtained == o.obtained && probe.make == o.make && probe.mileage == o.mileage)
    {
      var obtained := FromString(obtainedTok);
      if obtained.None? {
        return Crash, null;
      }
      if !IsValid(obtained.value) {
        return Rejected(InvalidCalendarDate), null;
      }
      if !IsBefore(obtained.value, today) {
        return Rejected(NotBeforeToday), null;
      }
      var make := ParseMake(makeTok);
      if make.None? {
        return Rejected(InvalidMake), null;
      }
      var mileage := ParseInt(mileageTok);
      if mileage.None? {
        return Rejected(InvalidMileage), null;
      }
      if mileage.value <= 0 {
        return Rejected(InvalidMileage), null;
      }
      probe := new Vehicle(plate, obtained.value, make.value, mileage.value);
      var dup := fleet.Contains(probe);
      if dup {
        return Rejected(AlreadyInFleet), probe;
      }
      o := AddAccepted(obtained.value, make.value, mileage.value);
    }

    /** handleAdd: on acceptance the new vehicle is appended to the fleet and
        its mileage becomes known; every other outcome changes nothing. */
    method HandleAdd(today: Date, plate: string, obtainedTok: string, makeTok: string, mileageTok: string)
      returns (o: Outcome, probe: Vehicle?)
      requires Valid()
      modifies this, fleet.Repr
      ensures Valid()
      ensures o == DecideAdd(old(View()), today, plate, obtainedTok, makeTok, mileageTok)
      ensures o.AddAccepted? ==> (probe != null && fresh(probe) && probe.plate == plate &&
        probe.obtained == o.obtained && probe.make == o.make &&
        View() == AfterAdd(old(View()), o, probe))
      ensures !o.AddAccepted? ==> View() == old(View())
    {
      o, probe := CheckAdd(today, plate, obtainedTok, makeTok, mileageTok);
      if o.AddAccepted? {
        ghost var st := View();
        RuleProperties.AddPreserves(st, today, plate, obtainedTok, makeTok, mileageTok, probe);
        CommitAdd(probe);
      }
    }

    /** The checks of handleDelete. */
    method CheckDelete(plate: string) returns (o: Outcome)
      requires Valid()
      ensures o == DecideDelete(View(), plate)
    {
      var existing := fleet.GetByPlate(plate);
      if existing == null {
        return Rejected(NotInFleet);
      }
      var booked := HasVehicleBookings(plate);
      if booked {
        return Rejected(HasBookings);
      }
      o := DeleteAccepted(existing);
    }

    /** handleDelete: on acceptance the vehicle is removed from the fleet;
        every other outcome changes nothing. */
    method HandleDelete(plate: string) returns (o: Outcome)
      requires Valid()
      modifies fleet.Repr
      ensures Valid()
      ensures o == DecideDelete(old(View()), plate)
      ensures View() == AfterDelete(old(View()), o)
      ensures !o.DeleteAccepted? ==> View() == old(View())
    {
      ghost var st := View();
      o := CheckDelete(plate);
      if o.DeleteAccepted? {
        RuleProperties.DeletePreserves(st, plate);
        CommitDelete(o.vehicle);
        assert View() == AfterDelete(st, o);
      } else {
        assert View() == st;
      }
    }

    /** The checks of handleBook. */
    method CheckBook(today: Date, beginTok: string, endTok: string, plate: string, empTok: string)
      returns (o: Outcome)
      requires Valid()
      ensures o == DecideBook(View(), today, beginTok, endTok, plate, empTok)
    {
      var begin := FromString(beginTok);
      if begin.None? {
        return Crash;
      }
      if !IsValid(begin.value) {
        return Rejected(BeginInvalid);
      }
      if IsBefore(begin.value, today) {
        return Rejected(BeginBeforeToday);
      }
      if !WithinThreeMonths(begin.value, today) {
        return Rejected(BeginBeyondThreeMonths);
      }
      var end := FromString(endTok);
      if end.None? {
        return Crash;
      }
      if !IsValid(end.value) {
        return Rejected(EndInvalid);
      }
      if Compare(end.value, begin.value) < 0 {
        return Rejected(EndBeforeBegin);
      }
      if DaysSpan(begin.value, end.value) > 7 {
        return Rejected(LongerThanWeek);
      }
      var veh := fleet.GetByPlate(plate);
      if veh == null {
        return Rejected(NotInFleet);
      }
      var free := IsVehicleAvailable(plate, begin.value, end.value);
      if !free {
        return Rejected(NotAvailable);
      }
      var emp := ParseEmployee(empTok);
      if emp.None? {
        return Rejected(NotEligible);
      }
      var busy := HasEmployeeConflict(emp.value, begin.value, end.value);
      if busy {
        return Rejected(EmployeeConflict);
      }
      o := BookAccepted(Booking(begin.value, end.value, emp.value, veh));
    }

    /** handleBook: on acceptance the booking is appended to the
        reservations; every other outcome changes nothing. */
    method HandleBook(today: Date, beginTok: string, endTok: string, plate: string, empTok: string)
      returns (o: Outcome)
      requires Valid()
      modifies reservations.Repr
      ensures Valid()
      ensures o == DecideBook(old(View()), today, beginTok, endTok, plate, empTok)
      ensures View() == AfterBook(old(View()), o)
      ensures !o.BookAccepted? ==> View() == old(View())
    {
      ghost var st := View();
      o := CheckBook(today, beginTok, endTok, plate, empTok);
      if o.BookAccepted? {
        RuleProperties.BookPreserves(st, today, beginTok, endTok, plate, empTok);
        CommitBook(o.booking);
        assert View() == AfterBook(st, o);
      } else {
        assert View() == st;
      }
    }

    /** The checks of handleCancel: both dates are parsed before either is
        checked, and an invalid one ends the command silently. */
    method CheckCancel(beginTok: string, endTok: string, plate: string) returns (o: Outcome)
      requires Valid()
      ensures o == DecideCancel(View(), beginTok, endTok, plate)
    {
      var begin := FromString(beginTok);
      var end := FromString(endTok);
      if begin.None? || end.None? {
        return Crash;
      }
      if !IsValid(begin.value) || !IsValid(end.value) {
        return Silent;
      }
      var b := FindBooking(begin.value, end.value, plate);
      if b.None? {
        return Rejected(CancelNotFound);
      }
      o := CancelAccepted(b.value);
    }

    /** handleCancel: on acceptance the booking is removed from the
        reservations; every other outcome changes nothing. */
    method HandleCancel(beginTok: string, endTok: string, plate: string) returns (o: Outcome)
      requires Valid()
      modifies reservations.Repr
      ensures Valid()
      ensures o == DecideCancel(old(View()), beginTok, endTok, plate)
      ensures View() == AfterCancel(old(View()), o)
      ensures !o.CancelAccepted? ==> View() == old(View())
    {
      ghost var st := View();
      o := CheckCancel(beginTok, endTok, plate);
      if o.CancelAccepted? {
        RuleProperties.CancelPreserves(st, beginTok, endTok, plate);
        CommitCancel(o.canceled);
        assert View() == AfterCancel(st, o);
      } else {
        assert View() == st;
      }
    }

    /** The checks of handleReturn; an invalid ending date ends the command
        silently. */
    method CheckReturn(endTok: string, plate: string, mileageTok: string) returns (o: Outcome)
      requires Valid()
      ensures o == DecideReturn(View(), endTok, plate, mileageTok)
      ensures o.ReturnAccepted? ==> o.trip.booking.vehicle in Known
    {
      var end := FromString(endTok);
      if end.None? {
        return Crash;
      }
      if !IsValid(end.value) {
        return Silent;
      }
      var found := FindBookingByEndAndPlate(end.value, plate);
      if found.None? {
        return Rejected(ReturnNotFound);
      }
      var b := found.value;
      var earliest := EarliestEndingDate();
      if earliest.Some? && Compare(end.value, earliest.value) != 0 {
        return Rejected(NotInOrder);
      }
      var newMileage := ParseInt(mileageTok);
      if newMileage.None? {
        return Rejected(InvalidMileage);
      }
      if newMileage.value <= 0 {
        return Rejected(InvalidMileage);
      }
      var original := b.vehicle.mileage;
      assert b.vehicle in Known;
      if newMileage.value <= original {
        return Rejected(MileageNotIncreased);
      }
      o := ReturnAccepted(Trip(b, original, newMileage.value));
    }

    /** handleReturn: on acceptance the trip is added to the trip list, the
        vehicle takes the entered mileage and the booking is removed from the
        reservations, in that order; every other outcome changes nothing. */
    method HandleReturn(endTok: string, plate: string, mileageTok: string) returns (o: Outcome)
      requires Valid()
      modifies reservations.Repr, trips.Repr, Known
      ensures Valid()
      ensures o == DecideReturn(old(View()), endTok, plate, mileageTok)
      ensures View() == AfterReturn(old(View()), o)
      ensures !o.ReturnAccepted? ==> View() == old(View())
    {
      ghost var st := View();
      o := CheckReturn(endTok, plate, mileageTok);
      if o.ReturnAccepted? {
        RuleProperties.ReturnPreserves(st, endTok, plate, mileageTok);
        CommitReturn(o.trip);
        assert View() == AfterReturn(st, o);
      } else {
        assert View() == st;
      }
    }
  }
}
