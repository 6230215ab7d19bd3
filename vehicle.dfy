/** Vehicle.java: plate, date obtained and make never change after
    construction; the mileage is updated in place by setMileage. */
module Vehicles {
  import opened Text
  import opened Dates
  import opened Catalog

  class Vehicle {
    const plate: string
    const obtained: Date
    const make: Make
    var mileage: int

    constructor (plate: string, obtained: Date, make: Make, mileage: int)
      ensures this.plate == plate && this.obtained == obtained
      ensures this.make == make && this.mileage == mileage
    {
      this.plate := plate;
      this.obtained := obtained;
      this.make := make;
      this.mileage := mileage;
    }

    /** setMileage changes the mileage and nothing else. */
    method SetMileage(m: int)
      modifies this
      ensures mileage == m
    {
      mileage := m;
    }

    /** Text form plate:MAKE:m/d/yyyy [mileage:N]. */
    function ToString(): string
      reads this
    {
      plate + ":" + MakeName(make) + ":" + Dates.ToString(obtained) + " [mileage:" + IntToString(mileage) + "]"
    }
  }

  /** Vehicle.equals: same plate; make, date and mileage are ignored. */
  predicate SameVehicle(a: Vehicle, b: Vehicle)
  {
    a.plate == b.plate
  }

  /** Vehicle.compareTo: make name first, then the date obtained. */
  function CompareVehicles(a: Vehicle, b: Vehicle): int
  {
    var c := StrCmp(MakeName(a.make), MakeName(b.make));
    if c != 0 then c else Compare(a.obtained, b.obtained)
  }

  /** The "greater than" test the fleet's insertion sort runs. */
  function VehicleGt(): (Vehicle, Vehicle) -> bool
  {
    (a: Vehicle, b: Vehicle) => CompareVehicles(a, b) > 0
  }

  // ----- properties -----

  lemma SameVehicleIsEquivalence(a: Vehicle, b: Vehicle, c: Vehicle)
    ensures SameVehicle(a, a)
    ensures SameVehicle(a, b) ==> SameVehicle(b, a)
    ensures SameVehicle(a, b) && SameVehicle(b, c) ==> SameVehicle(a, c)
  {
  }

  lemma MakeNamesDistinct(m: Make, n: Make)
    ensures MakeName(m) == MakeName(n) <==> m == n
  {
  }

  /** compareTo is zero exactly for the same make and the same date. */
  lemma CompareVehiclesZero(a: Vehicle, b: Vehicle)
    ensures CompareVehicles(a, b) == 0 <==> a.make == b.make && a.obtained == b.obtained
  {
    StrCmpZero(MakeName(a.make), MakeName(b.make));
    MakeNamesDistinct(a.make, b.make);
    CompareZero(a.obtained, b.obtained);
  }

  lemma CompareVehiclesAntisymmetric(a: Vehicle, b: Vehicle)
    ensures CompareVehicles(a, b) < 0 <==> CompareVehicles(b, a) > 0
  {
    StrCmpAntisymmetric(MakeName(a.make), MakeName(b.make));
    CompareAntisymmetric(a.obtained, b.obtained);
  }

  lemma CompareVehiclesTransitive(a: Vehicle, b: Vehicle, c: Vehicle)
    requires CompareVehicles(a, b) <= 0 && CompareVehicles(b, c) <= 0
    ensures CompareVehicles(a, c) <= 0
  {
    CompareTransitive(a.obtained, b.obtained, c.obtained);
    ThenTransitive(MakeName(a.make), MakeName(b.make), MakeName(c.make),
      Compare(a.obtained, b.obtained), Compare(b.obtained, c.obtained), Compare(a.obtained, c.obtained));
  }

  /** The fleet comparator is a total preorder, as the sort lemmas require. */
  lemma VehicleOrderIsPreorder()
    ensures forall a, b :: VehicleGt()(a, b) ==> !VehicleGt()(b, a)
    ensures forall a, b, c :: !VehicleGt()(a, b) && !VehicleGt()(b, c) ==> !VehicleGt()(a, c)
  {
    forall a, b ensures VehicleGt()(a, b) ==> !VehicleGt()(b, a) {
      CompareVehiclesAntisymmetric(b, a);
    }
    forall a, b, c | !VehicleGt()(a, b) && !VehicleGt()(b, c) ensures !VehicleGt()(a, c) {
      CompareVehiclesTransitive(a, b, c);
    }
  }

  /** The sample comparisons of Vehicle.main. */
  lemma CompareVehiclesSamples(v1: Vehicle, v2: Vehicle, v3: Vehicle, v4: Vehicle, v5: Vehicle, v6: Vehicle)
    requires v1.make == CHEVY && v1.obtained == Date(1, 1, 2020)
    requires v2.make == FORD && v2.obtained == Date(1, 1, 2019)
    requires v3.make == TOYOTA && v3.obtained == Date(1, 1, 2020)
    requires v4.make == HONDA && v4.obtained == Date(1, 1, 2020)
    requires v5.make == CHEVY && v5.obtained == Date(3, 15, 2022)
    requires v6.make == CHEVY && v6.obtained == Date(3, 15, 2022)
    ensures CompareVehicles(v1, v2) < 0
    ensures CompareVehicles(v3, v4) > 0
    ensures CompareVehicles(v5, v6) == 0
  {
    StrCmpZero(MakeName(CHEVY), MakeName(CHEVY));
  }
}
