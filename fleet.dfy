/** Fleet.java: the vehicles in a resizable array with a live prefix of
    `size` elements; linear search by plate, swap-with-last removal and an
    in-place insertion sort by make and date obtained for printing. */
module Fleets {
  import opened Options
  import opened Seqs
  import opened Sorting
  import opened Vehicles

  /** Growth step of the backing array (Fleet.CAPACITY). */
  const CAPACITY: nat := 4

  /** Matches the vehicles whose plate is `plate` (what Vehicle.equals tests). */
  function PlateIs(plate: string): Vehicle -> bool
  {
    (u: Vehicle) => u.plate == plate
  }

  /** The fleet after remove(v) for a vehicle with plate `plate`: the first
      vehicle with that plate is replaced by the last one, or nothing
      happens when there is none. */
  function RemoveVehicle(s: seq<Vehicle>, plate: string): seq<Vehicle>
  {
    var i := FirstIndex(s, PlateIs(plate));
    if i == -1 then s else SwapRemove(s, i)
  }

  /** The listing printByMake produces: None is "There is no vehicle in the
      fleet.", otherwise the vehicles in printing order. */
  function MakeListing(s: seq<Vehicle>): Option<seq<Vehicle>>
  {
    if s == [] then None else Some(InsertionSorted(s, VehicleGt()))
  }

  class Fleet {
    var fleet: array<Vehicle>
    var size: nat
    ghost var Repr: set<object>

    ghost predicate Valid()
      reads this, Repr
    {
      Repr == {this, fleet} && size <= fleet.Length
    }

    /** The live prefix. */
    ghost function Contents(): seq<Vehicle>
      reads this, Repr
      requires Valid()
    {
      fleet[..size]
    }

    /** The backing array starts empty; the first add grows it to CAPACITY. */
    constructor ()
      ensures Valid() && fresh(Repr) && Contents() == []
    {
      fleet := new Vehicle[0];
      size := 0;
      Repr := {this, fleet};
    }

    /** find: the least index whose vehicle has v's plate, or -1. */
    method Find(v: Vehicle) returns (idx: int)
      requires Valid()
      ensures idx == FirstIndex(Contents(), PlateIs(v.plate))
    {
      var i := 0;
      while i < size
        invariant 0 <= i <= size
        invariant forall j :: 0 <= j < i ==> fleet[j].plate != v.plate
      {
        if fleet[i].plate == v.plate {
          FirstIndexIs(Contents(), PlateIs(v.plate), i);
          return i;
        }
        i := i + 1;
      }
      FirstIndexIs(Contents(), PlateIs(v.plate), -1);
      return -1;
    }

    /** grow: a fresh array CAPACITY slots longer holding the same live prefix. */
    method Grow(fill: Vehicle)
      requires Valid()
      modifies Repr
      ensures Valid() && fresh(Repr - old(Repr))
      ensures Contents() == old(Contents())
      ensures fleet.Length == old(fleet.Length) + CAPACITY
    {
      var n := new Vehicle[fleet.Length + CAPACITY](_ => fill);
      var i := 0;
      while i < size
        invariant 0 <= i <= size
        invariant n[..i] == fleet[..i]
        modifies n
      {
        n[i] := fleet[i];
        i := i + 1;
      }
      fleet := n;
      Repr := {this, fleet};
    }

    /** add: append at index size, growing first when the array is full. */
    method Add(v: Vehicle)
      requires Valid()
      modifies Repr
      ensures Valid() && fresh(Repr - old(Repr))
      ensures Contents() == old(Contents()) + [v]
      ensures fleet.Length == if old(size) == old(fleet.Length) then old(fleet.Length) + CAPACITY else old(fleet.Length)
    {
      if size == fleet.Length {
        Grow(v);
      }
      fleet[size] := v;
      size := size + 1;
    }

    /** remove: overwrite the first vehicle with v's plate by the last one and
        shrink; a vehicle that is not there leaves everything as it was. */
    method Remove(v: Vehicle)
      requires Valid()
      modifies Repr
      ensures Valid() && Repr == old(Repr)
      ensures Contents() == RemoveVehicle(old(Contents()), v.plate)
    {
      var idx := Find(v);
      if idx == -1 {
        return;
      }
      fleet[idx] := fleet[size - 1];
      size := size - 1;
      assert fleet[..size] == SwapRemove(old(fleet[..size]), idx);
    }

    /** contains: some vehicle of the fleet has v's plate. */
    method Contains(v: Vehicle) returns (b: bool)
      requires Valid()
      ensures b <==> exists j :: 0 <= j < |Contents()| && Contents()[j].plate == v.plate
    {
      var idx := Find(v);
      b := idx != -1;
    }

    /** getByPlate: the first vehicle with the plate, or null. */
    method GetByPlate(plate: string) returns (r: Vehicle?)
      requires Valid()
      ensures r == null <==> FirstIndex(Contents(), PlateIs(plate)) == -1
      ensures r != null ==> r == Contents()[FirstIndex(Contents(), PlateIs(plate))]
    {
      var i := 0;
      while i < size
        invariant 0 <= i <= size
        invariant forall j :: 0 <= j < i ==> fleet[j].plate != plate
      {
        if fleet[i].plate == plate {
          FirstIndexIs(Contents(), PlateIs(plate), i);
          return fleet[i];
        }
        i := i + 1;
      }
      FirstIndexIs(Contents(), PlateIs(plate), -1);
      return null;
    }

    /** printByMake: an empty fleet yields only the empty-fleet message;
        otherwise the live prefix is insertion-sorted in place and listed. */
    method PrintByMake() returns (listing: Option<seq<Vehicle>>)
      requires Valid()
      modifies Repr
      ensures Valid() && Repr == old(Repr)
      ensures listing == MakeListing(old(Contents()))
      ensures Contents() == if old(size) == 0 then old(Contents()) else InsertionSorted(old(Contents()), VehicleGt())
    {
      if size == 0 {
        return None;
      }
      InsertionSort(fleet, size, VehicleGt());
      listing := Some(fleet[..size]);
    }
  }

  // ----- properties -----

  /** remove of an absent plate is a no-op; of a present one it drops exactly
      that occurrence, moving the last vehicle into its slot. */
  lemma RemoveVehicleEffect(s: seq<Vehicle>, plate: string)
    ensures (forall j :: 0 <= j < |s| ==> s[j].plate != plate) ==> RemoveVehicle(s, plate) == s
    ensures forall i :: 0 <= i < |s| && s[i].plate == plate && (forall j :: 0 <= j < i ==> s[j].plate != plate) ==>
      |RemoveVehicle(s, plate)| == |s| - 1 &&
      multiset(RemoveVehicle(s, plate)) == multiset(s) - multiset{s[i]} &&
      (i < |s| - 1 ==> RemoveVehicle(s, plate)[i] == s[|s| - 1])
  {
    var k := FirstIndex(s, PlateIs(plate));
    if k != -1 {
      SwapRemoveMultiset(s, k);
    }
  }

  /** The printed fleet is a permutation of the fleet, ordered by make name
      and then date obtained, with vehicles that compare equal in their
      original relative order. */
  lemma MakeListingOrder(s: seq<Vehicle>, x: Vehicle)
    requires s != []
    ensures MakeListing(s).Some?
    ensures multiset(MakeListing(s).value) == multiset(s)
    ensures |MakeListing(s).value| == |s|
    ensures forall i, j :: 0 <= i < j < |s| ==> CompareVehicles(MakeListing(s).value[i], MakeListing(s).value[j]) <= 0
    ensures Select(MakeListing(s).value, TiedWith(VehicleGt(), x)) == Select(s, TiedWith(VehicleGt(), x))
  {
    VehicleOrderIsPreorder();
    SortedPermutation(s, VehicleGt());
    SortedIsSorted(s, VehicleGt());
    SortedIsStable(s, VehicleGt(), x);
  }
}
