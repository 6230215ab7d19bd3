/** Reservation.java: the active bookings in a resizable array with a live
    prefix of `size` elements; linear search by Booking.equals, swap-with-last
    removal, and two in-place insertion sorts for printing, by plate and
    beginning date or by department and employee. */
module Reservations {
  import opened Options
  import opened Text
  import opened Dates
  import opened Catalog
  import opened Seqs
  import opened Sorting
  import opened Bookings

  /** Growth step of the backing array (Reservation.CAPACITY). */
  const CAPACITY: nat := 4

  /** Matches the bookings equal to `b` under Booking.equals. */
  function Matches(b: Booking): Booking -> bool
  {
    (x: Booking) => SameBooking(x, b)
  }

  /** The bookings after remove(b): the first booking equal to b is replaced by
      the last one, or nothing happens when there is none. */
  function RemoveBooking(s: seq<Booking>, b: Booking): seq<Booking>
  {
    var i := FirstIndex(s, Matches(b));
    if i == -1 then s else SwapRemove(s, i)
  }

  // ----- the two orders -----

  /** compareByVehicle: plate first, then the beginning date. */
  function CompareByVehicle(a: Booking, b: Booking): int
  {
    var c := StrCmp(a.vehicle.plate, b.vehicle.plate);
    if c != 0 then c else Compare(a.begin, b.begin)
  }

  /** compareByDept: department display name first, then the employee name. */
  function CompareByDept(a: Booking, b: Booking): int
  {
    var c := StrCmp(DisplayName(DepartmentOf(a.employee)), DisplayName(DepartmentOf(b.employee)));
    if c != 0 then c else StrCmp(EmployeeName(a.employee), EmployeeName(b.employee))
  }

  function ByVehicleGt(): (Booking, Booking) -> bool
  {
    (a: Booking, b: Booking) => CompareByVehicle(a, b) > 0
  }

  function ByDeptGt(): (Booking, Booking) -> bool
  {
    (a: Booking, b: Booking) => CompareByDept(a, b) > 0
  }

  // ----- what the print operations produce -----

  /** printByVehicle: None is "There is no booking record.", otherwise the
      bookings in printing order. */
  function VehicleListing(s: seq<Booking>): Option<seq<Booking>>
  {
    if s == [] then None else Some(InsertionSorted(s, ByVehicleGt()))
  }

  /** One printed department section: the --Display Name-- header and the
      bookings under it. */
  datatype Section = Section(dept: Department, items: seq<Booking>)

  /** Matches the bookings made by an employee of department `d`. */
  function DeptIs(d: Department): Booking -> bool
  {
    (b: Booking) => DepartmentOf(b.employee) == d
  }

  /** Matches the bookings whose department comes at position `k` or later
      in the section order. */
  function RankAtLeast(k: nat): Booking -> bool
  {
    (b: Booking) => SectionRank(DepartmentOf(b.employee)) >= k
  }

  /** The printed form of one printDeptSection call: a section when the header
      was printed, nothing otherwise. */
  function Heading(printedHeader: bool, d: Department, items: seq<Booking>): seq<Section>
  {
    if printedHeader then [Section(d, items)] else []
  }

  /** What printDeptSection prints over the bookings `t` for the department
      at position k of the section order; a department without bookings
      prints nothing, not even its header. */
  function SectionAt(t: seq<Booking>, k: nat): seq<Section>
    requires k < 5
  {
    var d := SectionOrder[k];
    var items := Select(t, DeptIs(d));
    Heading(items != [], d, items)
  }

  /** The sections printed for positions k, k+1, ..., 4 of the section order. */
  function SectionsFrom(t: seq<Booking>, k: nat): seq<Section>
    decreases 5 - k
  {
    if k >= 5 then [] else SectionAt(t, k) + SectionsFrom(t, k + 1)
  }

  /** printByDept: None is "There is no booking record.", otherwise the
      sections in the order BA&IT, CS, EE, IT&I, Mathematics. */
  function DeptListing(s: seq<Booking>): Option<seq<Section>>
  {
    if s == [] then None else Some(SectionsFrom(InsertionSorted(s, ByDeptGt()), 0))
  }

  /** The bookings of the sections, in printed order. */
  function Flatten(sections: seq<Section>): seq<Booking>
  {
    if sections == [] then [] else sections[0].items + Flatten(sections[1..])
  }

  class Reservation {
    var bookings: array<Booking>
    var size: nat
    ghost var Repr: set<object>

    ghost predicate Valid()
      reads this, Repr
    {
      Repr == {this, bookings} && size <= bookings.Length
    }

    /** The live prefix. */
    ghost function Contents(): seq<Booking>
      reads this, Repr
      requires Valid()
    {
      bookings[..size]
    }

    /** The backing array starts empty; the first add grows it to CAPACITY. */
    constructor ()
      ensures Valid() && fresh(Repr) && Contents() == []
    {
      bookings := new Booking[0];
      size := 0;
      Repr := {this, bookings};
    }

    function Size(): (n: nat)
      reads this, Repr
      requires Valid()
      ensures n == |Contents()|
    {
      size
    }

    /** get(i) for an index of the live prefix. */
    function Get(i: nat): (b: Booking)
      reads this, Repr
      requires Valid() && i < Size()
      ensures b == Contents()[i]
    {
      bookings[i]
    }

    /** find: the least index whose booking equals b, or -1. */
    method Find(b: Booking) returns (idx: int)
      requires Valid()
      ensures idx == FirstIndex(Contents(), Matches(b))
    {
      var i := 0;
      while i < size
        invariant 0 <= i <= size
        invariant forall j :: 0 <= j < i ==> !SameBooking(bookings[j], b)
      {
        if SameBooking(bookings[i], b) {
          FirstIndexIs(Contents(), Matches(b), i);
          return i;
        }
        i := i + 1;
      }
      FirstIndexIs(Contents(), Matches(b), -1);
      return -1;
    }

    /** grow: a fresh array CAPACITY slots longer holding the same live prefix. */
    method Grow(fill: Booking)
      requires Valid()
      modifies Repr
      ensures Valid() && fresh(Repr - old(Repr))
      ensures Contents() == old(Contents())
      ensures bookings.Length == old(bookings.Length) + CAPACITY
    {
      var n := new Booking[bookings.Length + CAPACITY](_ => fill);
      var i := 0;
      while i < size
        invariant 0 <= i <= size
        invariant n[..i] == bookings[..i]
        modifies n
      {
        n[i] := bookings[i];
        i := i + 1;
      }
      bookings := n;
      Repr := {this, bookings};
    }

    /** add: append at index size, growing first when the array is full. */
    method Add(b: Booking)
      requires Valid()
      modifies Repr
      ensures Valid() && fresh(Repr - old(Repr))
      ensures Contents() == old(Contents()) + [b]
      ensures bookings.Length == if old(size) == old(bookings.Length) then old(bookings.Length) + CAPACITY else old(bookings.Length)
    {
      if size == bookings.Length {
        Grow(b);
      }
      bookings[size] := b;
      size := size + 1;
    }

    /** remove: overwrite the first booking equal to b by the last one and
        shrink; a booking that is not there leaves everything as it was. */
    method Remove(b: Booking)
      requires Valid()
      modifies Repr
      ensures Valid() && Repr == old(Repr)
      ensures Contents() == RemoveBooking(old(Contents()), b)
    {
      var idx := Find(b);
      if idx == -1 {
        return;
      }
      bookings[idx] := bookings[size - 1];
      size := size - 1;
      assert bookings[..size] == SwapRemove(old(bookings[..size]), idx);
    }

    /** contains: some active booking equals b. */
    method Contains(b: Booking) returns (found: bool)
      requires Valid()
      ensures found <==> exists j :: 0 <= j < |Contents()| && SameBooking(Contents()[j], b)
    {
      var idx := Find(b);
      found := idx != -1;
    }

    /** printByVehicle: an empty list yields only the no-booking message;
        otherwise the live prefix is insertion-sorted in place and listed. */
    method PrintByVehicle() returns (listing: Option<seq<Booking>>)
      requires Valid()
      modifies Repr
      ensures Valid() && Repr == old(Repr)
      ensures listing == VehicleListing(old(Contents()))
      ensures Contents() == if old(size) == 0 then old(Contents()) else InsertionSorted(old(Contents()), ByVehicleGt())
    {
      if size == 0 {
        return None;
      }
      InsertionSort(bookings, size, ByVehicleGt());
      listing := Some(bookings[..size]);
    }

    /** printDeptSection: the header is printed exactly when some booking
        belongs to the department, followed by those bookings in array order. */
    method PrintDeptSection(dept: Department) returns (printedHeader: bool, items: seq<Booking>)
      requires Valid()
      ensures items == Select(Contents(), DeptIs(dept))
      ensures printedHeader <==> items != []
      ensures printedHeader <==> exists j :: 0 <= j < |Contents()| && DepartmentOf(Contents()[j].employee) == dept
    {
      printedHeader := false;
      items := [];
      var i := 0;
      while i < size
        invariant 0 <= i <= size
        invariant items == Select(bookings[..i], DeptIs(dept))
        invariant printedHeader <==> items != []
        invariant printedHeader <==> exists j :: 0 <= j < i && DepartmentOf(bookings[j].employee) == dept
      {
        var b := bookings[i];
        assert bookings[..i + 1][..i] == bookings[..i];
        if DepartmentOf(b.employee) == dept {
          printedHeader := true;
          items := items + [b];
        }
        i := i + 1;
      }
      assert bookings[..size] == Contents();
    }

    /** The five printDeptSection calls of printByDept, in the fixed order. */
    method PrintSections() returns (sections: seq<Section>)
      requires Valid()
      ensures sections == SectionsFrom(Contents(), 0)
    {
      var h, items := PrintDeptSection(BUSINESS_ANALYTICS_AND_INFORMATION_TECHNOLOGY);
      sections := Heading(h, BUSINESS_ANALYTICS_AND_INFORMATION_TECHNOLOGY, items);
      assert sections == SectionAt(Contents(), 0);
      h, items := PrintDeptSection(COMPUTER_SCIENCE);
      assert Heading(h, COMPUTER_SCIENCE, items) == SectionAt(Contents(), 1);
      sections := sections + Heading(h, COMPUTER_SCIENCE, items);
      h, items := PrintDeptSection(ELECTRICAL_ENGINEERING);
      assert Heading(h, ELECTRICAL_ENGINEERING, items) == SectionAt(Contents(), 2);
      sections := sections + Heading(h, ELECTRICAL_ENGINEERING, items);
      h, items := PrintDeptSection(INFORMATION_TECHNOLOGY_AND_INFORMATICS);
      assert Heading(h, INFORMATION_TECHNOLOGY_AND_INFORMATICS, items) == SectionAt(Contents(), 3);
      sections := sections + Heading(h, INFORMATION_TECHNOLOGY_AND_INFORMATICS, items);
      h, items := PrintDeptSection(MATHEMATICS);
      assert Heading(h, MATHEMATICS, items) == SectionAt(Contents(), 4);
      sections := sections + Heading(h, MATHEMATICS, items);
      SectionsUnfold(Contents());
    }

    /** printByDept: an empty list yields only the no-booking message;
        otherwise the live prefix is insertion-sorted in place and the five
        sections are printed in their fixed order. */
    method PrintByDept() returns (listing: Option<seq<Section>>)
      requires Valid()
      modifies Repr
      ensures Valid() && Repr == old(Repr)
      ensures listing == DeptListing(old(Contents()))
      ensures Contents() == if old(size) == 0 then old(Contents()) else InsertionSorted(old(Contents()), ByDeptGt())
    {
      if size == 0 {
        return None;
      }
      InsertionSort(bookings, size, ByDeptGt());
      var sections := PrintSections();
      listing := Some(sections);
    }
  }

  // ----- properties -----

  /** The five sections of printByDept, one call each, spelled out. */
  lemma SectionsUnfold(t: seq<Booking>)
    ensures SectionsFrom(t, 0) == SectionAt(t, 0) + SectionAt(t, 1) + SectionAt(t, 2) + SectionAt(t, 3) + SectionAt(t, 4)
  {
    assert SectionsFrom(t, 4) == SectionAt(t, 4) + SectionsFrom(t, 5);
    assert SectionsFrom(t, 3) == SectionAt(t, 3) + SectionsFrom(t, 4);
    assert SectionsFrom(t, 2) == SectionAt(t, 2) + SectionsFrom(t, 3);
    assert SectionsFrom(t, 1) == SectionAt(t, 1) + SectionsFrom(t, 2);
  }

  /** remove of an absent booking is a no-op; of a present one it drops
      exactly the first equal booking, moving the last one into its slot. */
  lemma RemoveBookingEffect(s: seq<Booking>, b: Booking)
    ensures (forall j :: 0 <= j < |s| ==> !SameBooking(s[j], b)) ==> RemoveBooking(s, b) == s
    ensures forall i :: 0 <= i < |s| && SameBooking(s[i], b) && (forall j :: 0 <= j < i ==> !SameBooking(s[j], b)) ==>
      |RemoveBooking(s, b)| == |s| - 1 &&
      multiset(RemoveBooking(s, b)) == multiset(s) - multiset{s[i]} &&
      (i < |s| - 1 ==> RemoveBooking(s, b)[i] == s[|s| - 1])
  {
    var k := FirstIndex(s, Matches(b));
    if k != -1 {
      SwapRemoveMultiset(s, k);
    }
  }

  /** compareByVehicle is zero exactly for the same plate and beginning date. */
  lemma CompareByVehicleZero(a: Booking, b: Booking)
    ensures CompareByVehicle(a, b) == 0 <==> a.vehicle.plate == b.vehicle.plate && a.begin == b.begin
  {
    StrCmpZero(a.vehicle.plate, b.vehicle.plate);
    CompareZero(a.begin, b.begin);
  }

  /** compareByDept is zero exactly for bookings of the same employee. */
  lemma CompareByDeptZero(a: Booking, b: Booking)
    ensures CompareByDept(a, b) == 0 <==> a.employee == b.employee
  {
    DisplayNameOrder(DepartmentOf(a.employee), DepartmentOf(b.employee));
    StrCmpZero(EmployeeName(a.employee), EmployeeName(b.employee));
    ParseNames(FORD, a.employee);
    ParseNames(FORD, b.employee);
  }

  /** The by-plate order is a total preorder, as the sort lemmas require. */
  lemma ByVehicleIsPreorder()
    ensures forall a, b :: ByVehicleGt()(a, b) ==> !ByVehicleGt()(b, a)
    ensures forall a, b, c :: !ByVehicleGt()(a, b) && !ByVehicleGt()(b, c) ==> !ByVehicleGt()(a, c)
  {
    forall a, b ensures ByVehicleGt()(a, b) ==> !ByVehicleGt()(b, a) {
      StrCmpAntisymmetric(a.vehicle.plate, b.vehicle.plate);
      CompareAntisymmetric(a.begin, b.begin);
    }
    forall a, b, c | !ByVehicleGt()(a, b) && !ByVehicleGt()(b, c) ensures !ByVehicleGt()(a, c) {
      CompareTransitive(a.begin, b.begin, c.begin);
      ThenTransitive(a.vehicle.plate, b.vehicle.plate, c.vehicle.plate,
        Compare(a.begin, b.begin), Compare(b.begin, c.begin), Compare(a.begin, c.begin));
    }
  }

  /** The by-department order is a total preorder, as the sort lemmas require. */
  lemma ByDeptIsPreorder()
    ensures forall a, b :: ByDeptGt()(a, b) ==> !ByDeptGt()(b, a)
    ensures forall a, b, c :: !ByDeptGt()(a, b) && !ByDeptGt()(b, c) ==> !ByDeptGt()(a, c)
  {
    forall a, b ensures ByDeptGt()(a, b) ==> !ByDeptGt()(b, a) {
      StrCmpAntisymmetric(DisplayName(DepartmentOf(a.employee)), DisplayName(DepartmentOf(b.employee)));
      StrCmpAntisymmetric(EmployeeName(a.employee), EmployeeName(b.employee));
    }
    forall a, b, c | !ByDeptGt()(a, b) && !ByDeptGt()(b, c) ensures !ByDeptGt()(a, c) {
      var x, y, z := EmployeeName(a.employee), EmployeeName(b.employee), EmployeeName(c.employee);
      if StrCmp(x, y) <= 0 && StrCmp(y, z) <= 0 {
        StrCmpTransitive(x, y, z);
      }
      ThenTransitive(DisplayName(DepartmentOf(a.employee)), DisplayName(DepartmentOf(b.employee)),
        DisplayName(DepartmentOf(c.employee)), StrCmp(x, y), StrCmp(y, z), StrCmp(x, z));
    }
  }

  /** printByVehicle lists a permutation of the bookings, ordered by plate
      and then beginning date, with tied bookings in their original order. */
  lemma VehicleListingOrder(s: seq<Booking>, x: Booking)
    requires s != []
    ensures VehicleListing(s).Some?
    ensures multiset(VehicleListing(s).value) == multiset(s)
    ensures |VehicleListing(s).value| == |s|
    ensures forall i, j :: 0 <= i < j < |s| ==> CompareByVehicle(VehicleListing(s).value[i], VehicleListing(s).value[j]) <= 0
    ensures Select(VehicleListing(s).value, TiedWith(ByVehicleGt(), x)) == Select(s, TiedWith(ByVehicleGt(), x))
  {
    ByVehicleIsPreorder();
    SortedPermutation(s, ByVehicleGt());
    SortedIsSorted(s, ByVehicleGt());
    SortedIsStable(s, ByVehicleGt(), x);
  }

  /** Sections that are nonempty, each holding exactly its department's
      bookings of `t` in their order, in strictly increasing section order
      from position k on. */
  ghost predicate SectionsOK(r: seq<Section>, t: seq<Booking>, k: nat)
  {
    (forall i :: 0 <= i < |r| ==> SectionRank(r[i].dept) >= k) &&
    (forall i :: 0 <= i < |r| ==> r[i].items != [] && r[i].items == Select(t, DeptIs(r[i].dept))) &&
    (forall i, j :: 0 <= i < j < |r| ==> SectionRank(r[i].dept) < SectionRank(r[j].dept))
  }

  lemma RankAt(k: nat)
    requires k < 5
    ensures SectionRank(SectionOrder[k]) == k
  {
  }

  lemma {:induction false} SectionsShape(t: seq<Booking>, k: nat)
    ensures SectionsOK(SectionsFrom(t, k), t, k)
    decreases 5 - k
  {
    if k < 5 {
      SectionsShape(t, k + 1);
      RankAt(k);
      var d := SectionOrder[k];
      var h, r := SectionAt(t, k), SectionsFrom(t, k + 1);
      assert SectionsFrom(t, k) == h + r;
      if h != [] {
        assert h == [Section(d, Select(t, DeptIs(d)))];
        assert h + r == [h[0]] + r;
        var all := h + r;
        forall i | 0 <= i < |all|
          ensures SectionRank(all[i].dept) >= k
          ensures all[i].items != [] && all[i].items == Select(t, DeptIs(all[i].dept))
          ensures 0 < i ==> SectionRank(all[i].dept) > k
        {
          if 0 < i {
            assert all[i] == r[i - 1];
          }
        }
        assert SectionsOK(all, t, k);
      }
    }
  }

  /** Sorting by department name sorts by section position. */
  lemma DeptOrderRank(a: Booking, b: Booking)
    requires CompareByDept(a, b) <= 0
    ensures SectionRank(DepartmentOf(a.employee)) <= SectionRank(DepartmentOf(b.employee))
  {
    DisplayNameOrder(DepartmentOf(b.employee), DepartmentOf(a.employee));
    DisplayNameOrder(DepartmentOf(a.employee), DepartmentOf(b.employee));
    StrCmpAntisymmetric(DisplayName(DepartmentOf(a.employee)), DisplayName(DepartmentOf(b.employee)));
  }

  function Rank(b: Booking): nat
  {
    SectionRank(DepartmentOf(b.employee))
  }

  /** In bookings sorted by section position, those of position k followed by
      those of later positions are those of position k or later. */
  lemma {:induction false} SplitAtRank(t: seq<Booking>, k: nat)
    requires k < 5
    requires forall i, j :: 0 <= i < j < |t| ==> Rank(t[i]) <= Rank(t[j])
    ensures Select(t, DeptIs(SectionOrder[k])) + Select(t, RankAtLeast(k + 1)) == Select(t, RankAtLeast(k))
    decreases |t|
  {
    SectionOrderRanks();
    if t != [] {
      var t', x := t[..|t| - 1], t[|t| - 1];
      assert forall i :: 0 <= i < |t'| ==> t'[i] == t[i];
      SplitAtRank(t', k);
      var d := SectionOrder[k];
      assert DeptIs(d)(x) <==> Rank(x) == k;
      if Rank(x) == k {
        SelectEmpty(t', RankAtLeast(k + 1));
      }
    }
  }

  /** Flattening distributes over concatenation. */
  lemma {:induction false} FlattenAppend(a: seq<Section>, b: seq<Section>)
    ensures Flatten(a + b) == Flatten(a) + Flatten(b)
    decreases |a|
  {
    if a == [] {
      assert a + b == b;
    } else {
      assert (a + b)[1..] == a[1..] + b;
      FlattenAppend(a[1..], b);
    }
  }

  /** The sections from position k on print exactly the bookings of those
      positions, in the order of `t`, when `t` is sorted by section. */
  lemma {:induction false} FlattenSections(t: seq<Booking>, k: nat)
    requires k <= 5
    requires forall i, j :: 0 <= i < j < |t| ==> Rank(t[i]) <= Rank(t[j])
    ensures Flatten(SectionsFrom(t, k)) == Select(t, RankAtLeast(k))
    decreases 5 - k
  {
    if k == 5 {
      SelectEmpty(t, RankAtLeast(5));
    } else {
      FlattenSections(t, k + 1);
      FlattenAppend(SectionAt(t, k), SectionsFrom(t, k + 1));
      SplitAtRank(t, k);
      var sec := SectionAt(t, k);
      assert Flatten(sec) == Select(t, DeptIs(SectionOrder[k])) by {
        if sec != [] {
          assert sec[1..] == [];
        }
      }
    }
  }

  /** printByDept prints every booking exactly once: the sections, read in
      order, are the bookings sorted by department and then employee; each
      section is nonempty and holds exactly its department's bookings; the
      sections follow the fixed order; and bookings of one employee keep
      their original relative order. */
  lemma DeptListingOrder(s: seq<Booking>, x: Booking)
    requires s != []
    ensures DeptListing(s).Some?
    ensures Flatten(DeptListing(s).value) == InsertionSorted(s, ByDeptGt())
    ensures multiset(Flatten(DeptListing(s).value)) == multiset(s)
    ensures |Flatten(DeptListing(s).value)| == |s|
    ensures forall i, j :: 0 <= i < j < |s| ==>
      CompareByDept(Flatten(DeptListing(s).value)[i], Flatten(DeptListing(s).value)[j]) <= 0
    ensures SectionsOK(DeptListing(s).value, InsertionSorted(s, ByDeptGt()), 0)
    ensures Select(Flatten(DeptListing(s).value), TiedWith(ByDeptGt(), x)) == Select(s, TiedWith(ByDeptGt(), x))
  {
    var t := InsertionSorted(s, ByDeptGt());
    SortedByRank(s, t);
    FlattenSections(t, 0);
    SelectAll(t, RankAtLeast(0));
    SectionsShape(t, 0);
    assert DeptListing(s).value == SectionsFrom(t, 0);
    ByDeptIsPreorder();
    SortedPermutation(s, ByDeptGt());
    SortedIsSorted(s, ByDeptGt());
    SortedIsStable(s, ByDeptGt(), x);
  }

  /** Sorting by department and employee sorts by section rank. */
  lemma SortedByRank(s: seq<Booking>, t: seq<Booking>)
    requires t == InsertionSorted(s, ByDeptGt())
    ensures forall i, j :: 0 <= i < j < |t| ==> Rank(t[i]) <= Rank(t[j])
  {
    ByDeptIsPreorder();
    SortedIsSorted(s, ByDeptGt());
    forall i, j | 0 <= i < j < |t| ensures Rank(t[i]) <= Rank(t[j]) {
      DeptOrderRank(t[i], t[j]);
    }
  }
}
