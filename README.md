# Vehicle management system: a verified model

This project models the core of a small vehicle-booking system (package `ru.vms`).
A company fleet of vehicles is booked by employees for at most a week at a time, up to three months ahead.
Bookings are cancelled or returned, and a return records a completed trip with its mileage.
The model covers:

- **The rule engine** (`Frontend`). Each of the five commands (add a vehicle, delete a vehicle, book, cancel, return) runs an ordered chain of checks. The first failing check decides a rejection and nothing changes; only an accepted command changes the registries, in its last step.
  - Module `Rules` states each command as a pure decision function (`DecideAdd` … `DecideReturn`) and a next-state function (`AfterAdd` … `AfterReturn`) over an abstract `State`: the fleet, the mileage of every vehicle, the active bookings and the completed trips.
  - Module `RuleProperties` proves what each command accepts (both directions), what an accepted command changes, and that every accepted command keeps the invariant `Rules.Inv`. The invariant says plates are unique in the fleet, no two bookings of one vehicle or of one employee overlap, every booking ends no earlier than it begins, and every booked vehicle is in the fleet.
  - Module `Frontends` holds the imperative `Frontend` class over the three registries. Its scan helpers are loops over the reservation array, proved equal to the specification functions. Each handler is a read-only chain of checks (`CheckAdd` …) proved equal to the decision function, followed by one state change (`CommitAdd` …). Every handler ensures `View() == After…(old(View()), o)` and keeps `Valid()`, which includes `Rules.Inv`.
- **The registries.**
  - `Fleet` and `Reservation` are classes over a resizable array with a live prefix of `size` elements. Both provide append-with-grow, linear search, swap-with-last removal, and an in-place stable insertion sort for printing.
  - `TripList` is a circular singly linked list with a ghost sequence of its nodes. Its print counts the nodes, copies them into an array and sorts them by ending date.
  - All four print operations share one insertion sort (`Sorting.InsertionSort`). It is proved equal to a functional insertion sort, which is proved to give a sorted permutation that is stable.
  - `Reservation.printByDept` groups the sorted bookings into the five department sections. The sections are proved to be exactly the department's bookings, in the fixed section order, each printed once.
- **The values.**
  - `Date` is a month/day/year triple with the Gregorian leap-year rule, days-in-month validity, lexicographic comparison, and the `m/d/yyyy` text form with its parser.
  - `Vehicle` is a class: plate, make and date obtained are fixed, and the mileage is updated in place. Vehicles are equal by plate and ordered by make name, then date obtained.
  - `Booking` (equal by plate, beginning and ending date) and `Trip` are datatypes.
  - The enumerations `Make`, `Employee` and `Department` form module `Catalog`, with the employee-to-department table and the display names.
- **Library and calendar stand-ins.**
  - The Java library behaviour the core relies on is written out in `Text`: `String.compareTo` (on characters as Unicode scalar values, see "## Left out"), `Integer.parseInt` with its 32-bit range, `Integer.toString`, `String.split` on `/`, and ASCII `toUpperCase`.
  - The calendar arithmetic `Frontend` delegates to `java.util.Calendar` is re-modelled as exact day arithmetic in `DayArithmetic`:
    - a serial day number;
    - `AddMonths`, which clamps the day to the target month's length;
    - the inclusive day span.

Inputs the program reads from the outside world are parameters:

- today's date, read once per command;
- the tokens of the command line, passed to each handler.

An exception that escapes a handler is the outcome `Crash`. This happens when `Date.fromString` meets malformed text, because `Integer.parseInt` throws or the split has too few pieces.

`Date.fromString`'s exception escapes `process` and `run` uncaught, so a malformed date ends the program; the model follows the code. An invalid, well-formed date is still a rejection (for add and book) or silent (for cancel and return), as the code has it.

## Model

| member | source | states |
|---|---|---|
| Frontends.Frontend.constructor | src/ru/vms/Frontend.java:16-18 | the three registries start empty and the invariant holds |
| Frontends.Frontend.IsVehicleAvailable | src/ru/vms/Frontend.java:298-306 | true exactly when no booking of the plate overlaps [begin, end] |
| Frontends.Frontend.HasEmployeeConflict | src/ru/vms/Frontend.java:308-316 | true exactly when some booking of the employee overlaps [begin, end] |
| Frontends.Frontend.HasVehicleBookings | src/ru/vms/Frontend.java:318-323 | true exactly when some booking carries the plate |
| Frontends.Frontend.FindBooking | src/ru/vms/Frontend.java:325-333 | the first booking with the plate and both dates, or none; a found booking is in the reservations and has those fields |
| Frontends.Frontend.FindBookingByEndAndPlate | src/ru/vms/Frontend.java:335-342 | the first booking with the plate and the ending date, or none; a found booking has those fields |
| Frontends.Frontend.EarliestEndingDate | src/ru/vms/Frontend.java:344-351 | the running minimum of the ending dates; none exactly when there is no booking; otherwise no booking ends earlier |
| Frontends.Frontend.CheckAdd | src/ru/vms/Frontend.java:69-105 | the outcome of the add checks is `DecideAdd` on the current state; on acceptance the probe vehicle is new and carries the parsed plate, date, make and mileage |
| Frontends.Frontend.CommitAdd | src/ru/vms/Frontend.java:106 | the fleet gains the vehicle at its end and the vehicle's mileage becomes known; bookings and trips are unchanged |
| Frontends.Frontend.HandleAdd | src/ru/vms/Frontend.java:69-108 | the outcome is `DecideAdd`; an accepted add creates a vehicle with the entered plate, obtained date and make, and the new state is `AfterAdd`; a rejection changes nothing, and the invariant is kept |
| Frontends.Frontend.CheckDelete | src/ru/vms/Frontend.java:111-121 | the outcome of the delete checks is `DecideDelete` on the current state |
| Frontends.Frontend.CommitDelete | src/ru/vms/Frontend.java:122 | the fleet becomes `RemoveVehicle` of itself; nothing else changes |
| Frontends.Frontend.HandleDelete | src/ru/vms/Frontend.java:111-124 | the outcome is `DecideDelete`, the new state is `AfterDelete`, a rejection changes nothing, and the invariant is kept |
| Frontends.Frontend.CheckBook | src/ru/vms/Frontend.java:127-182 | the outcome of the book checks, in source order, is `DecideBook` on the current state |
| Frontends.Frontend.CommitBook | src/ru/vms/Frontend.java:183 | the bookings gain the new booking at their end; nothing else changes |
| Frontends.Frontend.HandleBook | src/ru/vms/Frontend.java:127-185 | the outcome is `DecideBook`, the new state is `AfterBook`, a rejection changes nothing, and the invariant is kept |
| Frontends.Frontend.CheckCancel | src/ru/vms/Frontend.java:188-202 | the outcome of the cancel checks is `DecideCancel` on the current state |
| Frontends.Frontend.CommitCancel | src/ru/vms/Frontend.java:203 | the bookings become `RemoveBooking` of themselves; nothing else changes |
| Frontends.Frontend.HandleCancel | src/ru/vms/Frontend.java:188-205 | the outcome is `DecideCancel`, the new state is `AfterCancel`, a rejection or silence changes nothing, and the invariant is kept |
| Frontends.Frontend.CheckReturn | src/ru/vms/Frontend.java:208-247 | the outcome of the return checks is `DecideReturn` on the current state; an accepted booking's vehicle has a known mileage |
| Frontends.Frontend.CommitReturn | src/ru/vms/Frontend.java:247-250 | the trip is appended, only that vehicle's mileage changes, to the new value, and that booking is removed; the fleet is unchanged |
| Frontends.Frontend.HandleReturn | src/ru/vms/Frontend.java:208-252 | the outcome is `DecideReturn`, the new state is `AfterReturn`, a rejection or silence changes nothing, and the invariant is kept |
| Rules.Overlaps | src/ru/vms/Frontend.java:294-296 | the overlap test on two closed date intervals; its meaning is `RuleProperties.OverlapsMeaning` |
| Rules.Inv | src/ru/vms/Frontend.java:127-183 | the invariant the add and book checks establish: unique plates, bookings that end no earlier than they begin, no overlapping bookings per vehicle or per employee, every booked vehicle in the fleet with a mileage |
| Rules.DecideAdd | src/ru/vms/Frontend.java:69-105 | the add checks in source order as a decision on the state; characterised by `RuleProperties.AddRule` |
| Rules.AfterAdd | src/ru/vms/Frontend.java:106 | the state after an add: the vehicle appended and its mileage recorded |
| Rules.DecideDelete | src/ru/vms/Frontend.java:111-121 | the delete checks as a decision on the state; characterised by `RuleProperties.DeleteRule` |
| Rules.AfterDelete | src/ru/vms/Frontend.java:122 | the state after a delete: the vehicle with the plate removed from the fleet |
| Rules.DecideBook | src/ru/vms/Frontend.java:127-182 | the book checks in source order as a decision on the state, with the span computed as daysSpan computes it; characterised by `RuleProperties.BookRule` |
| Rules.AfterBook | src/ru/vms/Frontend.java:183 | the state after a booking: the booking appended |
| Rules.DecideCancel | src/ru/vms/Frontend.java:188-202 | the cancel checks as a decision on the state; characterised by `RuleProperties.CancelRule` |
| Rules.AfterCancel | src/ru/vms/Frontend.java:203 | the state after a cancel: that booking removed |
| Rules.DecideReturn | src/ru/vms/Frontend.java:208-247 | the return checks in source order as a decision on the state; characterised by `RuleProperties.ReturnRule` |
| Rules.AfterReturn | src/ru/vms/Frontend.java:247-250 | the state after a return: the trip archived, the new mileage recorded, the booking removed |
| RuleProperties.OverlapsMeaning | src/ru/vms/Frontend.java:294-296 | overlap is symmetric; well-ordered intervals overlap exactly when some day lies in both; intervals sharing an endpoint day overlap |
| RuleProperties.EarliestEndIsMin | src/ru/vms/Frontend.java:344-351 | the running minimum is none exactly for no bookings, and otherwise is some booking's ending date that no booking's ending date precedes |
| RuleProperties.AddRule | src/ru/vms/Frontend.java:69-105 | add crashes exactly on a date that throws; it is accepted exactly for a valid date before today, a known make, a positive int mileage and a new plate, with those parsed values |
| RuleProperties.AddPreserves | src/ru/vms/Frontend.java:101-106 | an accepted add keeps the invariant: the new plate is distinct from every plate in the fleet |
| RuleProperties.DeleteRule | src/ru/vms/Frontend.java:111-124 | delete is accepted exactly for a plate in the fleet that no booking carries; the fleet then loses exactly that vehicle and nothing else changes |
| RuleProperties.DeletePreserves | src/ru/vms/Frontend.java:118-122 | an accepted delete keeps the invariant; every booked vehicle is still in the fleet |
| RuleProperties.BookRule | src/ru/vms/Frontend.java:127-182 | a booking is accepted exactly under these conditions, and the accepted booking has the parsed dates, the parsed employee and the fleet's vehicle with that plate, and really lasts 1 to 7 days unless its length is beyond the int range: the beginning date is valid, not before today and at most three months ahead; the ending date is valid and not before the beginning; the span as daysSpan computes it, with its int wrap, is at most 7; the vehicle is free; the employee is eligible and free |
| RuleProperties.LongBookingAccepted | src/ru/vms/Frontend.java:153 | with today 10/14/2026, no bookings and the plate in the fleet, booking 10/14/2026 to 4/24/5881637 is accepted although it spans 2^31 + 1 days |
| RuleProperties.BookPreserves | src/ru/vms/Frontend.java:159-183 | an accepted booking keeps the invariant: no overlap per vehicle or per employee, and the vehicle is in the fleet |
| RuleProperties.CancelRule | src/ru/vms/Frontend.java:188-205 | crash exactly when a date throws; silence exactly when a date is invalid; acceptance exactly when a booking with the plate and both dates exists, and then exactly one such booking is removed and nothing else changes |
| RuleProperties.CancelPreserves | src/ru/vms/Frontend.java:198-204 | an accepted cancel keeps the invariant |
| RuleProperties.ReturnRule | src/ru/vms/Frontend.java:208-247 | crash exactly when the date throws, silence exactly when it is invalid; "cannot find the booking" exactly when the date is valid and no booking has the plate and that ending date; an accepted return closes a booking of the plate whose ending date is the minimum over all bookings, with a positive mileage strictly above the recorded one and positive mileage used; an out-of-order refusal means some booking ends strictly earlier |
| RuleProperties.ReturnComplete | src/ru/vms/Frontend.java:217-247 | under the invariant, returning a booking whose ending date is the minimum, with a positive mileage above the recorded one, is accepted and produces the trip (booking, recorded mileage, new mileage) |
| RuleProperties.ReturnEffect | src/ru/vms/Frontend.java:247-251 | an accepted return appends exactly one trip, sets only that vehicle's mileage to the new value, removes exactly that booking and leaves the fleet alone |
| RuleProperties.ArchivedTrip | src/ru/vms/Frontend.java:245-249 | the archived trip is the last one; its mileage used is positive and is exactly what the vehicle's recorded mileage grows by; `Trip.equals` holds of it and another trip exactly when that trip's booking has the plate, the ending date and the same beginning date |
| RuleProperties.ReturnPreserves | src/ru/vms/Frontend.java:247-251 | an accepted return keeps the invariant |
| Reservations.Reservation.constructor | src/ru/vms/Reservation.java:18-21 | a new reservation list is empty |
| Reservations.Reservation.Size | src/ru/vms/Reservation.java:32-34 | the number of live bookings |
| Reservations.Reservation.Get | src/ru/vms/Reservation.java:78 | the booking at live index i |
| Reservations.Reservation.Find | src/ru/vms/Reservation.java:23-30 | the least live index whose booking equals b under `Booking.equals`, or -1 |
| Reservations.Reservation.Grow | src/ru/vms/Reservation.java:36-42 | the live bookings are unchanged and the capacity grows by 4 |
| Reservations.Reservation.Add | src/ru/vms/Reservation.java:48-51 | the booking is appended after the live ones; the capacity grows by 4 exactly when the array was full |
| Reservations.Reservation.Remove | src/ru/vms/Reservation.java:58-64 | the live bookings become `RemoveBooking` of the old ones |
| Reservations.RemoveBookingEffect | src/ru/vms/Reservation.java:58-64 | removing an absent booking is a no-op; removing a present one shortens by one, drops exactly that occurrence and moves the last booking into its slot |
| Reservations.Reservation.Contains | src/ru/vms/Reservation.java:71 | true exactly when some live booking equals b |
| Reservations.Reservation.PrintByVehicle | src/ru/vms/Reservation.java:84-101 | the listing is none for no bookings; otherwise the live bookings are sorted in place to the insertion sort by plate, then beginning date, and listed |
| Reservations.VehicleListingOrder | src/ru/vms/Reservation.java:89-97 | that listing is a permutation of the bookings, ordered by plate then beginning date, and stable |
| Reservations.CompareByVehicle | src/ru/vms/Reservation.java:146-150 | by plate, then beginning date; its tie and preorder facts follow |
| Reservations.CompareByVehicleZero | src/ru/vms/Reservation.java:146-150 | the vehicle order ties exactly on the same plate and beginning date |
| Reservations.ByVehicleIsPreorder | src/ru/vms/Reservation.java:146-150 | the vehicle order is a total preorder |
| Reservations.Reservation.PrintDeptSection | src/ru/vms/Reservation.java:132-144 | exactly the department's bookings, in array order; a header exactly when there is one |
| Reservations.Reservation.PrintSections | src/ru/vms/Reservation.java:123-127 | the five sections in the fixed department order |
| Reservations.Reservation.PrintByDept | src/ru/vms/Reservation.java:107-130 | the listing is none for no bookings; otherwise the bookings are sorted in place by department, then employee, and listed by section |
| Reservations.DeptListingOrder | src/ru/vms/Reservation.java:112-127 | the sections together hold the sorted bookings, ordered by department display name and then employee name; they are a stable permutation; each printed section is one department's non-empty bookings, in rising section order |
| Reservations.SectionsShape | src/ru/vms/Reservation.java:123-144 | each printed section is the non-empty selection of its department, with the departments in strictly rising rank |
| Reservations.CompareByDept | src/ru/vms/Reservation.java:152-157 | by department display name, then employee name; its tie and preorder facts follow |
| Reservations.CompareByDeptZero | src/ru/vms/Reservation.java:152-157 | the department order ties exactly on the same employee |
| Reservations.ByDeptIsPreorder | src/ru/vms/Reservation.java:152-157 | the department order is a total preorder |
| Reservations.DeptOrderRank | src/ru/vms/Reservation.java:152-157 | bookings sorted by department are sorted by section rank |
| Fleets.Fleet.constructor | src/ru/vms/Fleet.java:18-21 | a new fleet is empty |
| Fleets.Fleet.Find | src/ru/vms/Fleet.java:23-30 | the least live index whose vehicle has v's plate, or -1 |
| Fleets.Fleet.Grow | src/ru/vms/Fleet.java:32-38 | the live vehicles are unchanged and the capacity grows by 4 |
| Fleets.Fleet.Add | src/ru/vms/Fleet.java:44-47 | the vehicle is appended after the live ones; the capacity grows exactly when full |
| Fleets.Fleet.Remove | src/ru/vms/Fleet.java:53-59 | the live vehicles become `RemoveVehicle` of the old ones, for v's plate |
| Fleets.RemoveVehicleEffect | src/ru/vms/Fleet.java:53-59 | removing an absent plate is a no-op; removing a present one shortens by one, drops exactly that occurrence and moves the last vehicle into its slot |
| Fleets.Fleet.Contains | src/ru/vms/Fleet.java:66-68 | true exactly when some live vehicle has v's plate |
| Fleets.Fleet.GetByPlate | src/ru/vms/Fleet.java:75-80 | the first vehicle with the plate, or null exactly when there is none |
| Fleets.Fleet.PrintByMake | src/ru/vms/Fleet.java:86-105 | the listing is none for an empty fleet; otherwise the live vehicles are sorted in place by make name and date obtained, and listed |
| Fleets.MakeListingOrder | src/ru/vms/Fleet.java:91-99 | that listing is a permutation of the fleet, ordered by make name then date obtained, and stable |
| Sorting.ShiftGreater | src/ru/vms/Fleet.java:93-97 | the inner loop moves every element of the prefix greater than the key one place right, stops at the first that is not greater, and touches nothing past the key's position |
| Sorting.InsertStep | src/ru/vms/Fleet.java:92-98 | one outer pass inserts the key into the sorted prefix exactly where `Insert` puts it, and leaves the rest of the array alone |
| Sorting.InsertionSort | src/ru/vms/Fleet.java:91-99 | the in-place sort leaves the prefix equal to the functional insertion sort, and the rest of the array unchanged |
| Sorting.SortedPermutation | src/ru/vms/Fleet.java:91-99 | the sort's output is a permutation of its input |
| Sorting.SortedIsSorted | src/ru/vms/Fleet.java:91-99 | with a total-preorder comparator, no element of the output is greater than a later one |
| Sorting.SortedIsStable | src/ru/vms/Fleet.java:91-99 | elements that compare equal keep their relative order |
| TripLists.Node.constructor | src/ru/vms/TripList.java:12 | a node holds its trip and no successor |
| TripLists.TripList.Add | src/ru/vms/TripList.java:20-30 | `last` holds the new trip, the circle stays intact and the trips are the old ones followed by the new one |
| TripLists.TripList.Print | src/ru/vms/TripList.java:36-56 | the listing is none for an empty list; otherwise it is the trips, visited once each from `last.next`, sorted by ending date |
| TripLists.TripListingOrder | src/ru/vms/TripList.java:45-52 | the printed trips are a permutation of the trips, ordered by ending date, and stable |
| TripLists.EndOrderIsPreorder | src/ru/vms/TripList.java:48 | ordering by ending date is a total preorder |
| Dates.IsLeap | src/ru/vms/Date.java:84-92 | the leap-year test; its rule is `Dates.LeapRule` |
| Dates.IsValid | src/ru/vms/Date.java:50-55 | a positive year, a month from 1 to 12 and a day from 1 to the month's length; samples in `Dates.ValiditySamples` |
| Dates.Compare | src/ru/vms/Date.java:100-108 | compareTo by year, then month, then day; its order properties are `Dates.CompareLexicographic`, `Dates.CompareAntisymmetric` and `Dates.CompareTransitive` |
| Dates.Equals | src/ru/vms/Date.java:117-123 | field-wise equality, agreeing with compareTo by `Dates.CompareZero` |
| Dates.ToString | src/ru/vms/Date.java:130-132 | the m/d/yyyy text; inverted by `Dates.FromString` as `Dates.TextRoundTrip` states |
| Dates.FromString | src/ru/vms/Date.java:38-44 | the three pieces parsed as ints, or none where `parseInt` or the piece access throws |
| Dates.DaysInMonth | src/ru/vms/Date.java:57-77 | between 0 and 31, and at least 28 exactly for months 1 to 12 |
| Dates.MonthLengths | src/ru/vms/Date.java:57-77 | 31 for months 1, 3, 5, 7, 8, 10 and 12; 30 for 4, 6, 9 and 11; 29 or 28 for February by leap year; 0 otherwise |
| Dates.YearLength | src/ru/vms/Date.java:57-77 | the month lengths add up to 366 in a leap year and 365 otherwise |
| Dates.LeapRule | src/ru/vms/Date.java:84-92 | leap exactly when divisible by 4 and not by 100, or by 400 |
| Dates.LeapSamples | src/ru/vms/Date.java:84-92 | 2000 and 2024 are leap years; 1900 and 2023 are not |
| Dates.ValiditySamples | src/ru/vms/Date.java:158-165 | 1/1/0, 13/19/2000, 2/29/1999 and 6/31/2000 are invalid; 2/29/2024 and 12/31/2025 are valid |
| Dates.CompareZero | src/ru/vms/Date.java:100-123 | compareTo is zero exactly when equals holds, which is field-wise equality |
| Dates.CompareAntisymmetric | src/ru/vms/Date.java:100-108 | swapping the arguments negates the comparison |
| Dates.CompareLexicographic | src/ru/vms/Date.java:100-108 | compareTo <= 0 is the lexicographic order on year, month, day |
| Dates.CompareTransitive | src/ru/vms/Date.java:100-108 | the order is transitive, strictly when one step is strict |
| Dates.TextRoundTrip | src/ru/vms/Date.java:38-44 | parsing a date's m/d/yyyy text gives the date back, for every date with int fields |
| DayArithmetic.DayNumber | src/ru/vms/Frontend.java:271-277 | the serial day that stands for a calendar day's midnight in milliseconds |
| DayArithmetic.IsBefore | src/ru/vms/Frontend.java:254-259 | `Calendar.before` on two midnights, as compareTo < 0 |
| DayArithmetic.WithinThreeMonths | src/ru/vms/Frontend.java:261-269 | not after today plus three months |
| DayArithmetic.ToInt32 | src/ru/vms/Frontend.java:276 | the `(int)` narrowing: a value in the 32-bit range, congruent to its input modulo 2^32, and the input itself when that fits |
| DayArithmetic.DaysSpan | src/ru/vms/Frontend.java:271-277 | daysSpan as written: the day difference narrowed to int, plus one in int arithmetic |
| DayArithmetic.ExactSpan | src/ru/vms/Frontend.java:271-277 | the intended span: calendar days from a to b, both included |
| DayArithmetic.SpanAgrees | src/ru/vms/Frontend.java:271-277 | the program's span equals the exact one whenever the day difference lies in [-2^31, 2^31 - 1) |
| DayArithmetic.SpanWeekLimit | src/ru/vms/Frontend.java:153 | on ordered dates, a program span of at most 7 means an exact span of 1 to 7 days or one beyond the int range |
| DayArithmetic.SpanWrapWitness | src/ru/vms/Frontend.java:275-276 | 4/24/5881637 is 2^31 days after 10/14/2026: the exact span is 2^31 + 1 and the program's span is -2^31 + 1 |
| DayArithmetic.DayNumberMonotone | src/ru/vms/Frontend.java:254-259 | on valid dates the day number is strictly monotone in compareTo, so `before` on calendar days is compareTo < 0 |
| DayArithmetic.AddMonths | src/ru/vms/Frontend.java:261-269 | adding months to a valid date gives a valid date, strictly later when at least one month is added |
| DayArithmetic.ThreeMonthLimit | src/ru/vms/Frontend.java:261-269 | the three-month limit is valid, strictly after today, in the month three ahead, with the day clamped |
| DayArithmetic.AddMonthsSamples | src/ru/vms/Frontend.java:264-265 | 1/31/2025 plus three months is 4/30/2025; 11/15/2025 plus three months is 2/15/2026 |
| DayArithmetic.SpanSign | src/ru/vms/Frontend.java:271-277 | the exact span is at least one day exactly when the ending date is not before the beginning; a single day spans 1 |
| DayArithmetic.SpanSameMonth | src/ru/vms/Frontend.java:271-277 | within one month the span is the difference of the days plus one, and the program's span agrees |
| DayArithmetic.SpanNextMonth | src/ru/vms/Frontend.java:271-277 | across one month boundary the span counts the rest of the first month, and the program's span agrees |
| Vehicles.Vehicle.constructor | src/ru/vms/Vehicle.java:23-28 | the fields are the constructor arguments |
| Vehicles.Vehicle.SetMileage | src/ru/vms/Vehicle.java:66-68 | the mileage becomes m; plate, make and date obtained are constant |
| Vehicles.SameVehicle | src/ru/vms/Vehicle.java:76-80 | equality by plate; an equivalence by `Vehicles.SameVehicleIsEquivalence` |
| Vehicles.CompareVehicles | src/ru/vms/Vehicle.java:97-101 | compareTo by make name, then date obtained; its tie, sign and order facts are the lemmas below |
| Vehicles.SameVehicleIsEquivalence | src/ru/vms/Vehicle.java:76-80 | equality by plate is reflexive, symmetric and transitive |
| Vehicles.CompareVehiclesZero | src/ru/vms/Vehicle.java:97-101 | vehicles tie exactly on the same make and the same date obtained |
| Vehicles.CompareVehiclesAntisymmetric | src/ru/vms/Vehicle.java:97-101 | swapping the vehicles flips the sign of the comparison |
| Vehicles.CompareVehiclesTransitive | src/ru/vms/Vehicle.java:97-101 | the vehicle order is transitive |
| Vehicles.VehicleOrderIsPreorder | src/ru/vms/Vehicle.java:97-101 | the vehicle order is a total preorder |
| Vehicles.CompareVehiclesSamples | src/ru/vms/Vehicle.java:103-115 | CHEVY vs FORD is negative, TOYOTA vs HONDA is positive, and the same make and date compare 0 |
| Vehicles.MakeNamesDistinct | src/ru/vms/Make.java:10 | the four make names are distinct |
| Bookings.SameBookingIsEquivalence | src/ru/vms/Booking.java:70-78 | booking equality is an equivalence on plate, beginning and ending date, and ignores the employee |
| Catalog.ParseMake | src/ru/vms/Frontend.java:83-88 | a found make is the one whose name is the upper-cased token; none exactly when no name matches |
| Catalog.ParseEmployee | src/ru/vms/Frontend.java:170-176 | a found employee is the one whose name is the upper-cased token; none exactly when no name matches |
| Catalog.ParseNames | src/ru/vms/Frontend.java:84 | every constant's own name parses to it |
| Catalog.ParseIgnoresCase | src/ru/vms/Frontend.java:84 | tokens equal up to upper-casing parse alike |
| Catalog.ParseMakeSample | src/ru/vms/Frontend.java:83-88 | "ford" and "Toyota" parse; "BMW" does not |
| Catalog.EmployeeDepartments | src/ru/vms/Employee.java:14-21 | the department of each of the eight employees |
| Catalog.EveryDepartmentStaffed | src/ru/vms/Employee.java:14-21 | every department has at least one employee |
| Catalog.DisplayNamesDistinct | src/ru/vms/Department.java:10-14 | distinct departments have distinct display names |
| Catalog.DisplayNameOrder | src/ru/vms/Department.java:10-14 | the lexicographic order of display names is the fixed section order |
| Catalog.SectionOrderRanks | src/ru/vms/Reservation.java:123-127 | the section order lists each of the five departments once, by rank |
| Catalog.MakeNameOrder | src/ru/vms/Vehicle.java:98 | make names order CHEVY < FORD < HONDA < TOYOTA |
| Text.StrCmp | src/ru/vms/Vehicle.java:98 | String.compareTo: the difference of the first differing characters, taken as Unicode scalar values, or of the lengths |
| Text.StrCmpZero | src/ru/vms/Vehicle.java:98 | String.compareTo is zero exactly on equal strings |
| Text.StrCmpAntisymmetric | src/ru/vms/Vehicle.java:98 | String.compareTo is antisymmetric |
| Text.StrCmpTransitive | src/ru/vms/Vehicle.java:98 | String.compareTo <= 0 is transitive |
| Text.ParseInt | src/ru/vms/Frontend.java:91-96 | a parsed value lies in the 32-bit range |
| Text.IntRoundTrip | src/ru/vms/Frontend.java:92 | parseInt inverts toString on every 32-bit value |
| Text.IntToString | src/ru/vms/Date.java:131 | Integer.toString: non-empty digits with a leading minus for negatives, and no '/' |
| Text.Split | src/ru/vms/Date.java:39 | the pieces between separators, at least one |
| Text.ToUpper | src/ru/vms/Frontend.java:84 | ASCII upper-casing, as `toUpperCase()` does under a default locale that maps ASCII to ASCII |
| Text.SplitPiece | src/ru/vms/Date.java:39 | splitting on '/' cuts at the first separator |
| Seqs.FirstIndex | src/ru/vms/Fleet.java:23-30 | the least index satisfying the test, or -1 when none does |
| Seqs.SwapRemoveMultiset | src/ru/vms/Fleet.java:56-58 | swap-with-last removal deletes exactly one occurrence |

## Left out

- Console input and output: the `run` loop, the line tokenizer, the command dispatch of `process` (including the print commands and the invalid-command message) and every printed line. Outcomes are values (`Rules.Outcome`, the `Reason` constructors stand for the messages), and print operations return what they would list.
- The system clock: today's date is a parameter of the add and book handlers, not read from `Calendar.getInstance()` inside each helper, so two helpers cannot see different days around midnight.
- `java.util.Calendar` details: leniency and the Julian/Gregorian cutover. The comparisons and the three-month limit are calendar-day arithmetic on the proleptic Gregorian calendar; a date before the cutover is before today under either calendar, and every other date an accepted command meets is today or later, long after the cutover.
- DayArithmetic.DaysSpan: models the `(int)` cast and the int `+ 1`, but takes the millisecond difference of two midnights to be whole days. Under a time zone with daylight saving, a span across a spring-forward night is an hour short and truncates to one day fewer; the model assumes a zone without it, such as UTC.
- DayArithmetic.DaysSpan: for ending years above 292278994, `Calendar`'s largest year, the millisecond count itself overflows a long, which the day arithmetic does not reproduce.
- DayArithmetic.IsBefore: compares calendar days exactly. Above year 292278994 lenient `Calendar` lets the long millisecond count wrap silently, and the model does not reproduce this wrap. An obtained date such as 1/1/292278995 wraps to a negative count, so the program adds the vehicle where `Rules.DecideAdd` refuses it as not before today. A beginning date near year 584544072 can wrap into the three months after today, so the program may accept such a booking where `Rules.DecideBook` refuses it as beyond three months.
- Missing tokens: `StringTokenizer.nextToken` throws when a command has too few tokens. Handlers take every token as a parameter, so this crash is not modelled.
- Unicode: `toUpperCase` and `parseInt` are modelled on ASCII letters and digits only.
- Text.StrCmp: compares characters as Unicode scalar values, while `String.compareTo` compares UTF-16 code units. The two orders differ between a character in U+E000–U+FFFF and one above U+FFFF: Java puts "😀" (U+1F600, high surrogate 0xD83D) before "Ａ" (U+FF21), and the model puts it after. Plates built from such characters can therefore be listed in a different order by `Reservations.Reservation.PrintByVehicle`; the make, department and employee names the other comparisons meet are ASCII, where the two orders agree.
- Text.ToUpper and DayArithmetic.IsBefore: the model assumes the JVM's default locale. Its upper-casing must map ASCII letters to ASCII, which Turkish and Azerbaijani do not: there 'i' becomes U+0130, so `lim` and `zimnes` would not parse as employees. Its `Calendar.getInstance()` must be Gregorian, which th_TH (Buddhist era) and ja_JP_JP (Japanese imperial) are not: there the entered year is read in that calendar's era, so `DayArithmetic.WithinThreeMonths` and the before-today checks would decide differently.
- `Make.java` is only a datatype; its name order is used by the vehicle comparison.
- Text forms: the `toString` methods of `Date`, `Vehicle`, `Booking` and `Trip` are functions with that format. Only the date form has a property, its round trip with `fromString`.
- Fleets.Fleet.constructor: allocates capacity 0 instead of 4. The first add grows the array to 4, so capacities agree from then on.
- Reservations.Reservation.constructor: allocates capacity 0 instead of 4, for the same reason.
- Fleets.Fleet.Remove: the vacated slot is not set to null. It keeps a stale reference beyond `size` that no operation reads.
- Reservations.Reservation.Remove: the vacated slot is not set to null, for the same reason.
- TripLists.Node.constructor: `data` is a constant. The source never reassigns it.
- Rules.DecideReturn: requires that every booked vehicle has a recorded mileage (`Tracked`). The source dereferences the vehicle unconditionally, and the handlers' invariant guarantees the requirement.
- Dates.Compare: uses mathematical integers. The source's `int` subtraction can overflow for extreme field values, which no valid date has.
- Integer widths: mileages are unbounded integers, but every mileage comes from `parseInt` and so lies in the 32-bit range. The mileage-used subtraction of two positive ints cannot overflow.
- The getters of `Date`, `Vehicle`, `Booking` and `Trip` are the fields of the datatypes and the class.

## Findings

| source | as written | input that shows it | evidently intended | confidence | as-written member | corrected member |
|---|---|---|---|---|---|---|
| src/ru/vms/Frontend.java:153 | `daysSpan` narrows the day difference with `(int)`, so a span of 2^31 + 1 days reads as -2^31 + 1 and passes `daysSpan(begin, end) > 7` | today 10/14/2026, `B 10/14/2026 4/24/5881637 <plate> <employee>` with the plate in the fleet and no bookings: the booking is accepted | a booking longer than seven days is refused whatever its length | not executed | DayArithmetic.DaysSpan, exhibited by RuleProperties.LongBookingAccepted and DayArithmetic.SpanWrapWitness | DayArithmetic.ExactSpan, with DayArithmetic.SpanSign and DayArithmetic.SpanWeekLimit |

The handler model keeps the as-written span, because it models what the program does. `DayArithmetic.SpanAgrees` proves that the two spans coincide whenever the dates are less than 2^31 - 1 days apart, and `RuleProperties.BookRule` states that an accepted booking lasts one to seven days unless its exact span is beyond the int range.
