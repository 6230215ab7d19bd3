/** TripList.java: the completed trips in a circular singly linked list
    reached through its last node; add splices a node in after `last`, and
    print counts the nodes, copies their trips into an array in list order
    and insertion-sorts that array by ending date. */
module TripLists {
  import opened Options
  import opened Dates
  import opened Seqs
  import opened Sorting
  import opened Bookings

  /** The order print sorts by: the ending date of the trip's booking. */
  function EndGt(): (Trip, Trip) -> bool
  {
    (a: Trip, b: Trip) => Compare(a.booking.end, b.booking.end) > 0
  }

  /** print: None is "There is no archived trips.", otherwise the trips in
      printing order. */
  function TripListing(s: seq<Trip>): Option<seq<Trip>>
  {
    if s == [] then None else Some(InsertionSorted(s, EndGt()))
  }

  class Node {
    const data: Trip
    var next: Node?

    constructor (t: Trip)
      ensures data == t && next == null
    {
      data := t;
      next := null;
    }
  }

  class TripList {
    var last: Node?
    /** The nodes in list order: last.next first, last at the end. */
    ghost var nodes: seq<Node>
    /** The trips in the order they were added. */
    ghost var Contents: seq<Trip>
    ghost var Repr: set<object>

    ghost predicate Valid()
      reads this, Repr
    {
      this in Repr &&
      (forall i :: 0 <= i < |nodes| ==> nodes[i] in Repr) &&
      |Contents| == |nodes| &&
      (last == null <==> nodes == []) &&
      (nodes != [] ==> last == nodes[|nodes| - 1] && nodes[|nodes| - 1].next == nodes[0]) &&
      (forall i :: 0 <= i < |nodes| ==> nodes[i].data == Contents[i]) &&
      (forall i :: 0 <= i < |nodes| - 1 ==> nodes[i].next == nodes[i + 1]) &&
      (forall i, j :: 0 <= i < j < |nodes| ==> nodes[i] != nodes[j])
    }

    constructor ()
      ensures Valid() && fresh(Repr) && Contents == []
    {
      last := null;
      nodes := [];
      Contents := [];
      Repr := {this};
    }

    /** add: the new node becomes `last`, placed after the old last node and
        before the first one, so the trips stay in the order added. */
    method Add(t: Trip)
      requires Valid()
      modifies Repr
      ensures Valid() && fresh(Repr - old(Repr))
      ensures Contents == old(Contents) + [t]
      ensures last != null && last.data == t
    {
      var n := new Node(t);
      if last == null {
        last := n;
        last.next := last;
      } else {
        n.next := last.next;
        last.next := n;
        last := n;
      }
      nodes := nodes + [n];
      Contents := Contents + [t];
      Repr := Repr + {n};
    }

    /** print: an empty list yields only the no-trips message; otherwise the
        count loop and the copy loop each go once round the circle from
        last.next, and the copy is sorted by ending date. The list itself
        is left unchanged. */
    method Print() returns (listing: Option<seq<Trip>>)
      requires Valid()
      ensures listing == TripListing(Contents)
    {
      if last == null {
        return None;
      }
      var count := 0;
      var p := last.next;
      while true
        invariant 0 <= count < |nodes| && p == nodes[count]
        decreases |nodes| - count
      {
        count := count + 1;
        if p == last {
          break;
        }
        p := p.next;
      }
      assert count == |nodes|;
      var fill := last.data;
      var arr := new Trip[count](_ => fill);
      var i := 0;
      p := last.next;
      while true
        invariant 0 <= i < count && p == nodes[i]
        invariant forall j :: 0 <= j < i ==> arr[j] == Contents[j]
        decreases count - i
      {
        arr[i] := p.data;
        i := i + 1;
        if p == last {
          break;
        }
        p := p.next;
      }
      assert arr[..] == arr[..arr.Length] == Contents;
      InsertionSort(arr, arr.Length, EndGt());
      assert arr[..] == arr[..arr.Length] == InsertionSorted(Contents, EndGt());
      listing := Some(arr[..]);
    }
  }

  // ----- properties -----

  /** Ordering by ending date is a total preorder, as the sort lemmas require. */
  lemma EndOrderIsPreorder()
    ensures forall a, b :: EndGt()(a, b) ==> !EndGt()(b, a)
    ensures forall a, b, c :: !EndGt()(a, b) && !EndGt()(b, c) ==> !EndGt()(a, c)
  {
    forall a: Trip, b: Trip ensures EndGt()(a, b) ==> !EndGt()(b, a) {
      CompareAntisymmetric(a.booking.end, b.booking.end);
    }
    forall a: Trip, b: Trip, c: Trip | !EndGt()(a, b) && !EndGt()(b, c) ensures !EndGt()(a, c) {
      CompareTransitive(a.booking.end, b.booking.end, c.booking.end);
    }
  }

  /** print lists a permutation of the trips ordered by ending date, with
      trips ending on the same day in the order they were added. */
  lemma TripListingOrder(s: seq<Trip>, x: Trip)
    requires s != []
    ensures TripListing(s).Some?
    ensures multiset(TripListing(s).value) == multiset(s)
    ensures |TripListing(s).value| == |s|
    ensures forall i, j :: 0 <= i < j < |s| ==> Compare(TripListing(s).value[i].booking.end, TripListing(s).value[j].booking.end) <= 0
    ensures Select(TripListing(s).value, TiedWith(EndGt(), x)) == Select(s, TiedWith(EndGt(), x))
  {
    EndOrderIsPreorder();
    SortedPermutation(s, EndGt());
    SortedIsSorted(s, EndGt());
    SortedIsStable(s, EndGt(), x);
  }
}
