/** What the rule engine guarantees: the acceptance conditions of each
    command, the effect of an accepted command, and the invariant of Rules.Inv
    kept by every accepted command. */
module RuleProperties {
  import opened Options
  import opened Text
  import opened Dates
  import opened DayArithmetic
  import opened Catalog
  import opened Seqs
  import opened Vehicles
  import opened Bookings
  import opened Rules
  import Fleets
  import Reservations

  // ----- overlaps -----

  /** overlaps is symmetric and inclusive: well-ordered intervals overlap
      exactly when some day lies in both, so intervals sharing only an
      endpoint day overlap. */
  lemma OverlapsMeaning(a1: Date, a2: Date, b1: Date, b2: Date)
    ensures Overlaps(a1, a2, b1, b2) <==> Overlaps(b1, b2, a1, a2)
    ensures Compare(a1, a2) <= 0 && Compare(b1, b2) <= 0 ==>
      (Overlaps(a1, a2, b1, b2) <==>
        exists d :: Compare(a1, d) <= 0 && Compare(d, a2) <= 0 && Compare(b1, d) <= 0 && Compare(d, b2) <= 0)
    ensures Compare(a1, a2) <= 0 && Compare(b1, b2) <= 0 && a2 == b1 ==> Overlaps(a1, a2, b1, b2)
  {
    CompareZero(a2, a2);
    if Compare(a1, a2) <= 0 && Compare(b1, b2) <= 0 {
      if Overlaps(a1, a2, b1, b2) {
        // the later of the two beginnings lies in both intervals
        var d := if Compare(a1, b1) <= 0 then b1 else a1;
        CompareAntisymmetric(a1, b1);
        CompareZero(d, d);
        assert Compare(a1, d) <= 0 && Compare(d, a2) <= 0 && Compare(b1, d) <= 0 && Compare(d, b2) <= 0;
      }
      forall d | Compare(a1, d) <= 0 && Compare(d, a2) <= 0 && Compare(b1, d) <= 0 && Compare(d, b2) <= 0
        ensures Overlaps(a1, a2, b1, b2)
      {
        CompareTransitive(a1, d, b2);
        CompareTransitive(b1, d, a2);
      }
    }
  }

  // ----- earliestEndingDate -----

  /** The running minimum is the earliest ending date of all bookings, and
      it is the ending date of one of them. */
  lemma {:induction false} EarliestEndIsMin(s: seq<Booking>)
    ensures EarliestEnd(s).None? <==> s == []
    ensures EarliestEnd(s).Some? ==>
      (exists j :: 0 <= j < |s| && s[j].end == EarliestEnd(s).value) &&
      forall j :: 0 <= j < |s| ==> Compare(EarliestEnd(s).value, s[j].end) <= 0
    decreases |s|
  {
    if s != [] {
      var s' := s[..|s| - 1];
      var x := s[|s| - 1];
      EarliestEndIsMin(s');
      assert forall j :: 0 <= j < |s'| ==> s'[j] == s[j];
      var r := EarliestEnd(s).value;
      CompareZero(x.end, x.end);
      if EarliestEnd(s').Some? {
        var b := EarliestEnd(s').value;
        CompareAntisymmetric(x.end, b);
        forall j | 0 <= j < |s'| ensures Compare(r, s[j].end) <= 0 {
          CompareTransitive(r, b, s[j].end);
        }
        if r == x.end {
          assert s[|s| - 1].end == r;
        } else {
          var k :| 0 <= k < |s'| && s'[k].end == b;
          assert s[k].end == r;
        }
      } else {
        assert s == [x];
      }
    }
  }

  // ----- add -----

  /** handleAdd accepts exactly a parseable, valid date strictly before
      today, a known make, a positive int mileage and a plate not yet in the
      fleet; it crashes exactly on a date that throws; every other input is
      rejected. */
  lemma AddRule(st: State, today: Date, plate: string, obtainedTok: string, makeTok: string, mileageTok: string)
    ensures var o := DecideAdd(st, today, plate, obtainedTok, makeTok, mileageTok);
      (o == Crash <==> FromString(obtainedTok).None?) &&
      (o.AddAccepted? <==>
        FromString(obtainedTok).Some? && IsValid(FromString(obtainedTok).value) &&
        IsBefore(FromString(obtainedTok).value, today) &&
        ParseMake(makeTok).Some? && ParseInt(mileageTok).Some? && ParseInt(mileageTok).value > 0 &&
        !InFleet(st.fleet, plate)) &&
      (o.AddAccepted? ==>
        Some(o.obtained) == FromString(obtainedTok) && Some(o.make) == ParseMake(makeTok) &&
        Some(o.mileage) == ParseInt(mileageTok) && 0 < o.mileage <= INT_MAX) &&
      (o.Crash? || o.Rejected? || o.AddAccepted?)
  {
  }

  /** An accepted add keeps the invariant: the new plate is not in the fleet. */
  lemma AddPreserves(st: State, today: Date, plate: string, obtainedTok: string, makeTok: string, mileageTok: string, probe: Vehicle)
    requires Inv(st)
    requires DecideAdd(st, today, plate, obtainedTok, makeTok, mileageTok).AddAccepted?
    requires probe.plate == plate
    ensures Inv(AfterAdd(st, DecideAdd(st, today, plate, obtainedTok, makeTok, mileageTok), probe))
  {
    var o := DecideAdd(st, today, plate, obtainedTok, makeTok, mileageTok);
    var st' := AfterAdd(st, o, probe);
    PairwiseAppend(st.fleet, probe, DistinctPlates());
    assert forall j :: 0 <= j < |st.fleet| ==> st.fleet[j].plate != plate;
    assert forall v :: v in st'.fleet ==> v in st.fleet || v == probe;
  }

  // ----- delete -----

  /** handleDelete accepts exactly a plate in the fleet that no booking
      carries; it then removes exactly that vehicle, moving the last one into
      its slot, and changes nothing else. */
  lemma DeleteRule(st: State, plate: string)
    ensures var o := DecideDelete(st, plate);
      (o.DeleteAccepted? <==> InFleet(st.fleet, plate) && !PlateBooked(st.bookings, plate)) &&
      (o.DeleteAccepted? || o == Rejected(NotInFleet) || o == Rejected(HasBookings)) &&
      (o.DeleteAccepted? ==>
        o.vehicle.plate == plate && o.vehicle in st.fleet &&
        (forall j :: 0 <= j < |st.bookings| ==> st.bookings[j].vehicle.plate != plate) &&
        var st' := AfterDelete(st, o);
        |st'.fleet| == |st.fleet| - 1 &&
        multiset(st'.fleet) == multiset(st.fleet) - multiset{o.vehicle} &&
        st'.bookings == st.bookings && st'.miles == st.miles && st'.trips == st.trips)
  {
    var i := FirstIndex(st.fleet, Fleets.PlateIs(plate));
    if i != -1 {
      SwapRemoveMultiset(st.fleet, i);
    }
  }

  /** An accepted delete keeps the invariant; in particular every booked
      vehicle is still in the fleet, because the removed one has no booking. */
  lemma DeletePreserves(st: State, plate: string)
    requires Inv(st)
    requires DecideDelete(st, plate).DeleteAccepted?
    ensures Inv(AfterDelete(st, DecideDelete(st, plate)))
  {
    var o := DecideDelete(st, plate);
    var i := FirstIndex(st.fleet, Fleets.PlateIs(plate));
    var st' := AfterDelete(st, o);
    assert st'.fleet == SwapRemove(st.fleet, i);
    PairwiseSwapRemove(st.fleet, i, DistinctPlates());
    SwapRemoveElements(st.fleet, i);
    forall j | 0 <= j < |st.bookings| ensures st.bookings[j].vehicle in st'.fleet {
      assert st.bookings[j].vehicle.plate != plate;
    }
  }

  // ----- book -----

  /** handleBook accepts exactly: a valid beginning date that is today or
      later and at most three months ahead, a valid ending date not before it,
      a span of at most seven as daysSpan computes it, a plate in the fleet
      whose bookings do not overlap the interval, an eligible employee and no
      overlapping booking of that employee. The accepted booking is made of
      those parts, with the fleet's vehicle, and lasts one to seven days unless
      its real length is beyond the int range that daysSpan's cast wraps. */
  lemma BookRule(st: State, today: Date, beginTok: string, endTok: string, plate: string, empTok: string)
    ensures var o := DecideBook(st, today, beginTok, endTok, plate, empTok);
      o.BookAccepted? <==>
        FromString(beginTok).Some? && FromString(endTok).Some? &&
        var begin, end := FromString(beginTok).value, FromString(endTok).value;
        IsValid(begin) && Compare(today, begin) <= 0 && WithinThreeMonths(begin, today) &&
        IsValid(end) && Compare(begin, end) <= 0 && DaysSpan(begin, end) <= 7 &&
        VehicleByPlate(st.fleet, plate).Some? && VehicleFree(st.bookings, plate, begin, end) &&
        ParseEmployee(empTok).Some? && !EmployeeBusy(st.bookings, ParseEmployee(empTok).value, begin, end)
    ensures var o := DecideBook(st, today, beginTok, endTok, plate, empTok);
      o.BookAccepted? ==>
        Some(o.booking.begin) == FromString(beginTok) && Some(o.booking.end) == FromString(endTok) &&
        Some(o.booking.employee) == ParseEmployee(empTok) && o.booking.vehicle.plate == plate &&
        o.booking.vehicle in st.fleet
    ensures var o := DecideBook(st, today, beginTok, endTok, plate, empTok);
      o.BookAccepted? ==>
        1 <= ExactSpan(o.booking.begin, o.booking.end) <= 7 || ExactSpan(o.booking.begin, o.booking.end) > INT_MAX
  {
    var o := DecideBook(st, today, beginTok, endTok, plate, empTok);
    if FromString(beginTok).Some? && FromString(endTok).Some? {
      var begin, end := FromString(beginTok).value, FromString(endTok).value;
      CompareAntisymmetric(begin, today);
      CompareAntisymmetric(end, begin);
      if o.BookAccepted? {
        SpanWeekLimit(begin, end);
      }
    }
  }

  /** The wrap in daysSpan lets a booking through that the week limit is
      meant to refuse: with today 10/14/2026, no reservations and the plate
      in the fleet, `B 10/14/2026 4/24/5881637 <plate> <employee>` is
      accepted although it spans 2^31 + 1 days. */
  lemma LongBookingAccepted(st: State, plate: string, e: Employee)
    requires st.bookings == [] && VehicleByPlate(st.fleet, plate).Some?
    ensures var today, end := Date(10, 14, 2026), Date(4, 24, 5881637);
      DecideBook(st, today, Dates.ToString(today), Dates.ToString(end), plate, EmployeeName(e)).BookAccepted?
    ensures ExactSpan(Date(10, 14, 2026), Date(4, 24, 5881637)) > 7
  {
    var today, end := Date(10, 14, 2026), Date(4, 24, 5881637);
    TextRoundTrip(today);
    TextRoundTrip(end);
    ParseNames(FORD, e);
    SpanWrapWitness();
    ThreeMonthLimit(today);
    CompareZero(today, today);
    CompareAntisymmetric(end, today);
    assert Compare(today, end) < 0;
  }

  /** An accepted booking keeps the invariant: it overlaps no booking of the
      same vehicle or of the same employee, and its vehicle is in the fleet. */
  lemma BookPreserves(st: State, today: Date, beginTok: string, endTok: string, plate: string, empTok: string)
    requires Inv(st)
    requires DecideBook(st, today, beginTok, endTok, plate, empTok).BookAccepted?
    ensures Inv(AfterBook(st, DecideBook(st, today, beginTok, endTok, plate, empTok)))
  {
    var o := DecideBook(st, today, beginTok, endTok, plate, empTok);
    BookRule(st, today, beginTok, endTok, plate, empTok);
    var b := o.booking;
    var s := st.bookings;
    forall j | 0 <= j < |s| ensures Compatible()(s[j], b) && Compatible()(b, s[j]) {
      OverlapsMeaning(b.begin, b.end, s[j].begin, s[j].end);
    }
    PairwiseAppend(s, b, Compatible());
    var st' := AfterBook(st, o);
    assert st'.bookings == s + [b];
    forall j | 0 <= j < |st'.bookings|
      ensures st'.bookings[j].vehicle in st'.fleet && st'.bookings[j].vehicle in st'.miles
      ensures Compare(st'.bookings[j].begin, st'.bookings[j].end) <= 0
    {
      if j < |s| {
        assert st'.bookings[j] == s[j];
      }
    }
  }

  // ----- cancel and return: which booking is removed -----

  /** remove(b) for the booking found at index i removes index i, when no
      earlier booking equals it. */
  lemma RemovesAt(s: seq<Booking>, i: nat)
    requires i < |s|
    requires forall j :: 0 <= j < i ==> !SameBooking(s[j], s[i])
    ensures Reservations.RemoveBooking(s, s[i]) == SwapRemove(s, i)
    ensures multiset(Reservations.RemoveBooking(s, s[i])) == multiset(s) - multiset{s[i]}
  {
    SameBookingIsEquivalence(s[i], s[i], s[i]);
    FirstIndexIs(s, Reservations.Matches(s[i]), i);
    SwapRemoveMultiset(s, i);
  }

  /** Removing the booking at index i keeps the invariant. */
  lemma RemovalPreserves(st: State, i: nat, st': State)
    requires Inv(st) && i < |st.bookings|
    requires st'.bookings == SwapRemove(st.bookings, i) && st'.fleet == st.fleet
    requires st.miles.Keys <= st'.miles.Keys
    ensures Inv(st')
  {
    PairwiseSwapRemove(st.bookings, i, Compatible());
    SwapRemoveElements(st.bookings, i);
    forall j | 0 <= j < |st'.bookings|
      ensures st'.bookings[j].vehicle in st'.fleet && st'.bookings[j].vehicle in st'.miles
      ensures Compare(st'.bookings[j].begin, st'.bookings[j].end) <= 0
    {
      var k :| 0 <= k < |st.bookings| && st.bookings[k] == st'.bookings[j];
    }
  }

  // ----- cancel -----

  /** handleCancel crashes when either date throws, says nothing when either
      is invalid, and otherwise removes exactly the first booking with that
      plate and both dates, or reports that there is none. */
  lemma CancelRule(st: State, beginTok: string, endTok: string, plate: string)
    ensures var o := DecideCancel(st, beginTok, endTok, plate);
      (o == Crash <==> FromString(beginTok).None? || FromString(endTok).None?) &&
      (o == Silent <==> (FromString(beginTok).Some? && FromString(endTok).Some? &&
        (!IsValid(FromString(beginTok).value) || !IsValid(FromString(endTok).value)))) &&
      (o.Crash? || o.Silent? || o == Rejected(CancelNotFound) || o.CancelAccepted?)
    ensures var o := DecideCancel(st, beginTok, endTok, plate);
      o.CancelAccepted? <==>
        FromString(beginTok).Some? && FromString(endTok).Some? &&
        IsValid(FromString(beginTok).value) && IsValid(FromString(endTok).value) &&
        exists j :: 0 <= j < |st.bookings| && st.bookings[j].vehicle.plate == plate &&
          Some(st.bookings[j].begin) == FromString(beginTok) && Some(st.bookings[j].end) == FromString(endTok)
    ensures var o := DecideCancel(st, beginTok, endTok, plate);
      o.CancelAccepted? ==>
        o.canceled in st.bookings && o.canceled.vehicle.plate == plate &&
        Some(o.canceled.begin) == FromString(beginTok) && Some(o.canceled.end) == FromString(endTok) &&
        var st' := AfterCancel(st, o);
        |st'.bookings| == |st.bookings| - 1 &&
        multiset(st'.bookings) == multiset(st.bookings) - multiset{o.canceled} &&
        st'.fleet == st.fleet && st'.miles == st.miles && st'.trips == st.trips
  {
    var o := DecideCancel(st, beginTok, endTok, plate);
    if FromString(beginTok).Some? && FromString(endTok).Some? {
      var begin, end := FromString(beginTok).value, FromString(endTok).value;
      var s := st.bookings;
      var p := BookingIs(begin, end, plate);
      var i := FirstIndex(s, p);
      forall j | 0 <= j < |s| ensures p(s[j]) <==> s[j].vehicle.plate == plate && Some(s[j].begin) == Some(begin) && Some(s[j].end) == Some(end) {
        CompareZero(s[j].begin, begin);
        CompareZero(s[j].end, end);
      }
      if i != -1 {
        forall j | 0 <= j < i ensures !SameBooking(s[j], s[i]) {
          SameBookingIsEquivalence(s[j], s[i], s[i]);
        }
        RemovesAt(s, i);
      }
    }
  }

  /** An accepted cancel keeps the invariant. */
  lemma CancelPreserves(st: State, beginTok: string, endTok: string, plate: string)
    requires Inv(st)
    requires DecideCancel(st, beginTok, endTok, plate).CancelAccepted?
    ensures Inv(AfterCancel(st, DecideCancel(st, beginTok, endTok, plate)))
  {
    var begin, end := FromString(beginTok).value, FromString(endTok).value;
    var s := st.bookings;
    var i := FirstIndex(s, BookingIs(begin, end, plate));
    forall j | 0 <= j < i ensures !SameBooking(s[j], s[i]) {
      SameBookingIsEquivalence(s[j], s[i], s[i]);
    }
    RemovesAt(s, i);
    RemovalPreserves(st, i, AfterCancel(st, DecideCancel(st, beginTok, endTok, plate)));
  }

  // ----- return -----

  /** handleReturn crashes exactly on an ending date that throws and says
      nothing on an invalid one. An accepted return closes a booking of the
      plate with that ending date, which is the earliest ending date of all
      bookings; the trip starts at the vehicle's recorded mileage and ends at
      the entered one, which is positive and larger, so the mileage used is
      positive. A return refused as out of order has some booking ending
      strictly earlier. */
  lemma ReturnRule(st: State, endTok: string, plate: string, mileageTok: string)
    requires Tracked(st)
    ensures var o := DecideReturn(st, endTok, plate, mileageTok);
      (o == Crash <==> FromString(endTok).None?) &&
      (o == Silent <==> (FromString(endTok).Some? && !IsValid(FromString(endTok).value))) &&
      (o.Crash? || o.Silent? || o.Rejected? || o.ReturnAccepted?)
    ensures var o := DecideReturn(st, endTok, plate, mileageTok);
      o == Rejected(ReturnNotFound) <==>
        FromString(endTok).Some? && IsValid(FromString(endTok).value) &&
        LookupByEnd(st.bookings, FromString(endTok).value, plate).None?
    ensures var o := DecideReturn(st, endTok, plate, mileageTok);
      o.ReturnAccepted? ==>
        var t := o.trip;
        var b := t.booking;
        b in st.bookings && b.vehicle.plate == plate &&
        FromString(endTok) == Some(b.end) && IsValid(b.end) &&
        (forall j :: 0 <= j < |st.bookings| ==> Compare(b.end, st.bookings[j].end) <= 0) &&
        t.beginMileage == st.miles[b.vehicle] && ParseInt(mileageTok) == Some(t.endMileage) &&
        0 < t.endMileage && t.beginMileage < t.endMileage && MileageUsed(t) > 0
    ensures var o := DecideReturn(st, endTok, plate, mileageTok);
      o == Rejected(NotInOrder) ==>
        exists j :: 0 <= j < |st.bookings| && Compare(st.bookings[j].end, FromString(endTok).value) < 0
  {
    var o := DecideReturn(st, endTok, plate, mileageTok);
    if FromString(endTok).Some? && IsValid(FromString(endTok).value) {
      var end := FromString(endTok).value;
      var s := st.bookings;
      var i := FirstIndex(s, EndingIs(end, plate));
      EarliestEndIsMin(s);
      if i != -1 {
        var b := s[i];
        CompareZero(b.end, end);
        var e := EarliestEnd(s).value;
        var k :| 0 <= k < |s| && s[k].end == e;
        if Compare(end, e) == 0 {
          CompareZero(end, e);
          forall j | 0 <= j < |s| ensures Compare(b.end, s[j].end) <= 0 {
          }
        } else {
          CompareAntisymmetric(e, end);
          assert Compare(s[k].end, end) < 0;
        }
      }
    }
  }

  /** A booking that shares the ending date of a well-ordered booking
      overlaps it. */
  lemma SameEndOverlaps(x: Booking, y: Booking)
    requires Compare(x.begin, x.end) <= 0 && Compare(y.begin, y.end) <= 0
    requires x.end == y.end
    ensures Overlaps(x.begin, x.end, y.begin, y.end)
  {
  }

  /** The converse of ReturnRule under the invariant: returning a booking of
      the plate whose ending date is the earliest of all, with a positive
      mileage above the recorded one, is accepted and closes that booking.
      The invariant makes the booking the only one of its vehicle with that
      ending date, so the search by ending date and plate finds it. */
  lemma ReturnComplete(st: State, i: nat, endTok: string, plate: string, mileageTok: string, n: int)
    requires Inv(st) && i < |st.bookings|
    requires st.bookings[i].vehicle.plate == plate
    requires FromString(endTok) == Some(st.bookings[i].end) && IsValid(st.bookings[i].end)
    requires forall j :: 0 <= j < |st.bookings| ==> Compare(st.bookings[i].end, st.bookings[j].end) <= 0
    requires ParseInt(mileageTok) == Some(n) && 0 < n && st.miles[st.bookings[i].vehicle] < n
    ensures DecideReturn(st, endTok, plate, mileageTok) ==
      ReturnAccepted(Trip(st.bookings[i], st.miles[st.bookings[i].vehicle], n))
  {
    var s := st.bookings;
    var b := s[i];
    var p := EndingIs(b.end, plate);
    forall j | 0 <= j < i ensures !p(s[j]) {
      CompareZero(s[j].end, b.end);
      if s[j].end == b.end {
        SameEndOverlaps(s[j], b);
        assert Compatible()(s[j], s[i]);
      }
    }
    CompareZero(b.end, b.end);
    FirstIndexIs(s, p, i);
    EarliestEndIsMin(s);
    var e := EarliestEnd(s).value;
    var k :| 0 <= k < |s| && s[k].end == e;
    CompareAntisymmetric(b.end, e);
    CompareZero(b.end, e);
  }

  /** An accepted return archives exactly its trip, gives its vehicle the
      entered mileage and no other vehicle a new one, removes exactly that
      booking and leaves the fleet alone. */
  lemma ReturnEffect(st: State, endTok: string, plate: string, mileageTok: string)
    requires Tracked(st)
    requires DecideReturn(st, endTok, plate, mileageTok).ReturnAccepted?
    ensures var o := DecideReturn(st, endTok, plate, mileageTok);
      var t := o.trip;
      var st' := AfterReturn(st, o);
      st'.trips == st.trips + [t] &&
      st'.miles.Keys == st.miles.Keys && st'.miles[t.booking.vehicle] == t.endMileage &&
      (forall u :: u in st.miles && u != t.booking.vehicle ==> st'.miles[u] == st.miles[u]) &&
      |st'.bookings| == |st.bookings| - 1 &&
      multiset(st'.bookings) == multiset(st.bookings) - multiset{t.booking} &&
      st'.fleet == st.fleet
  {
    var end := FromString(endTok).value;
    var s := st.bookings;
    var i := FirstIndex(s, EndingIs(end, plate));
    ReturnFound(s, end, plate, i);
    RemovesAt(s, i);
  }

  /** The archived trip: Trip.toString's mileage used is positive and is
      exactly what the vehicle's recorded mileage grows by, and Trip.equals
      holds of it and another trip exactly when that trip's booking has the
      returned plate and ending date and the same beginning date. */
  lemma ArchivedTrip(st: State, endTok: string, plate: string, mileageTok: string, u: Trip)
    requires Tracked(st)
    requires DecideReturn(st, endTok, plate, mileageTok).ReturnAccepted?
    ensures var t := DecideReturn(st, endTok, plate, mileageTok).trip;
      var st' := AfterReturn(st, DecideReturn(st, endTok, plate, mileageTok));
      MileageUsed(t) > 0 &&
      st'.miles[t.booking.vehicle] == st.miles[t.booking.vehicle] + MileageUsed(t) &&
      st'.trips[|st'.trips| - 1] == t
    ensures var t := DecideReturn(st, endTok, plate, mileageTok).trip;
      SameTrip(t, u) <==>
        u.booking.vehicle.plate == plate && Some(u.booking.end) == FromString(endTok) &&
        u.booking.begin == t.booking.begin
  {
    ReturnRule(st, endTok, plate, mileageTok);
    var t := DecideReturn(st, endTok, plate, mileageTok).trip;
    SameBookingIsEquivalence(t.booking, u.booking, u.booking);
  }

  /** The booking found by ending date and plate comes before every other
      booking equal to it, so remove takes it out at its own index. */
  lemma ReturnFound(s: seq<Booking>, end: Date, plate: string, i: int)
    requires i == FirstIndex(s, EndingIs(end, plate)) && i != -1
    ensures forall j :: 0 <= j < i ==> !SameBooking(s[j], s[i])
  {
    forall j | 0 <= j < i ensures !SameBooking(s[j], s[i]) {
      SameBookingIsEquivalence(s[j], s[i], s[i]);
      CompareZero(s[i].end, end);
      CompareZero(s[j].end, end);
    }
  }

  /** An accepted return keeps the invariant. */
  lemma ReturnPreserves(st: State, endTok: string, plate: string, mileageTok: string)
    requires Inv(st)
    requires DecideReturn(st, endTok, plate, mileageTok).ReturnAccepted?
    ensures Inv(AfterReturn(st, DecideReturn(st, endTok, plate, mileageTok)))
  {
    var o := DecideReturn(st, endTok, plate, mileageTok);
    var end := FromString(endTok).value;
    var s := st.bookings;
    var i := FirstIndex(s, EndingIs(end, plate));
    assert LookupByEnd(s, end, plate) == Some(s[i]);
    assert o.trip.booking == s[i];
    var st' := AfterReturn(st, o);
    ReturnFound(s, end, plate, i);
    RemovesAt(s, i);
    assert st'.bookings == SwapRemove(s, i);
    RemovalPreserves(st, i, st');
  }
}
