/** The stable insertion sort that Fleet.printByMake, Reservation.printByVehicle,
    Reservation.printByDept and TripList.print each run in place. The source
    writes the same loop four times with different comparators; here it is one
    method, parameterised by the comparator's "greater than" test `gt`, proved
    equal to the functional insertion sort `InsertionSorted`, whose properties
    (permutation, sortedness, stability) are lemmas. The last two hold when
    `gt` is the `compare(x, y) > 0` test of a comparator that is a total
    preorder: `gt` asymmetric and its negation transitive. */
module Sorting {
  import opened Seqs

  /** No element is greater than a later one. */
  ghost predicate SortedBy<T>(s: seq<T>, gt: (T, T) -> bool)
  {
    forall i, j :: 0 <= i < j < |s| ==> !gt(s[i], s[j])
  }

  /** Elements the comparator ranks equal to `x` (compare == 0 both ways). */
  function TiedWith<T>(gt: (T, T) -> bool, x: T): T -> bool
  {
    y => !gt(x, y) && !gt(y, x)
  }

  /** Position at which the inner loop places `x`: it scans from the right and
      stops at the first element that is not greater than `x`. */
  function InsertPos<T>(s: seq<T>, x: T, gt: (T, T) -> bool): (k: nat)
    ensures k <= |s|
    ensures forall j :: k <= j < |s| ==> gt(s[j], x)
    ensures k > 0 ==> !gt(s[k - 1], x)
    decreases |s|
  {
    if s == [] || !gt(s[|s| - 1], x) then |s| else InsertPos(s[..|s| - 1], x, gt)
  }

  /** `x` inserted into `s` after every element not greater than it that is
      not followed by a greater one: one step of insertion sort. */
  function Insert<T>(s: seq<T>, x: T, gt: (T, T) -> bool): (r: seq<T>)
    decreases |s|
  {
    if s == [] || !gt(s[|s| - 1], x) then s + [x]
    else Insert(s[..|s| - 1], x, gt) + [s[|s| - 1]]
  }

  function InsertionSorted<T>(s: seq<T>, gt: (T, T) -> bool): (r: seq<T>)
    decreases |s|
  {
    if s == [] then [] else Insert(InsertionSorted(s[..|s| - 1], gt), s[|s| - 1], gt)
  }

  /** Insert splits `s` at InsertPos. */
  lemma {:induction false} InsertSplit<T>(s: seq<T>, x: T, gt: (T, T) -> bool)
    ensures Insert(s, x, gt) == s[..InsertPos(s, x, gt)] + [x] + s[InsertPos(s, x, gt)..]
    decreases |s|
  {
    if s == [] || !gt(s[|s| - 1], x) {
    } else {
      var s' := s[..|s| - 1];
      InsertSplit(s', x, gt);
      var k := InsertPos(s', x, gt);
      assert s'[..k] == s[..k];
      assert s'[k..] + [s[|s| - 1]] == s[k..];
    }
  }

  /** Any split point with the two stopping conditions of the inner loop is InsertPos. */
  lemma {:induction false} InsertAt<T>(s: seq<T>, x: T, gt: (T, T) -> bool, k: nat)
    requires k <= |s|
    requires forall j :: k <= j < |s| ==> gt(s[j], x)
    requires k > 0 ==> !gt(s[k - 1], x)
    ensures Insert(s, x, gt) == s[..k] + [x] + s[k..]
    decreases |s|
  {
    if k == |s| {
    } else {
      var s' := s[..|s| - 1];
      InsertAt(s', x, gt, k);
      assert s'[..k] == s[..k];
      assert s'[k..] + [s[|s| - 1]] == s[k..];
    }
  }

  lemma {:induction false} InsertMultiset<T>(s: seq<T>, x: T, gt: (T, T) -> bool)
    ensures multiset(Insert(s, x, gt)) == multiset(s) + multiset{x}
  {
    InsertSplit(s, x, gt);
    var k := InsertPos(s, x, gt);
    assert s == s[..k] + s[k..];
  }

  /** The sorted sequence is a permutation of the input. */
  lemma {:induction false} SortedPermutation<T>(s: seq<T>, gt: (T, T) -> bool)
    ensures multiset(InsertionSorted(s, gt)) == multiset(s)
    ensures |InsertionSorted(s, gt)| == |s|
    decreases |s|
  {
    if s != [] {
      var s' := s[..|s| - 1];
      SortedPermutation(s', gt);
      InsertMultiset(InsertionSorted(s', gt), s[|s| - 1], gt);
      assert s == s' + [s[|s| - 1]];
      assert |multiset(InsertionSorted(s, gt))| == |multiset(s)|;
    }
  }

  lemma InsertKeepsSorted<T>(s: seq<T>, x: T, gt: (T, T) -> bool)
    requires forall x, y :: gt(x, y) ==> !gt(y, x)
    requires forall x, y, z :: !gt(x, y) && !gt(y, z) ==> !gt(x, z)
    requires SortedBy(s, gt)
    ensures SortedBy(Insert(s, x, gt), gt)
  {
    InsertSplit(s, x, gt);
    var k := InsertPos(s, x, gt);
    var r := Insert(s, x, gt);
    assert |r| == |s| + 1;
    forall i, j | 0 <= i < j < |r| ensures !gt(r[i], r[j]) {
      if j < k {
        assert r[i] == s[i] && r[j] == s[j];
      } else if j == k {
        assert r[i] == s[i] && r[j] == x;
        assert !gt(s[i], s[k - 1]) || i == k - 1;
      } else if i < k {
        assert r[i] == s[i] && r[j] == s[j - 1];
      } else if i == k {
        assert r[i] == x && r[j] == s[j - 1] && gt(s[j - 1], x);
      } else {
        assert r[i] == s[i - 1] && r[j] == s[j - 1];
      }
    }
  }

  /** A total-preorder comparator yields a sorted result. */
  lemma {:induction false} SortedIsSorted<T>(s: seq<T>, gt: (T, T) -> bool)
    requires forall x, y :: gt(x, y) ==> !gt(y, x)
    requires forall x, y, z :: !gt(x, y) && !gt(y, z) ==> !gt(x, z)
    ensures SortedBy(InsertionSorted(s, gt), gt)
    decreases |s|
  {
    if s != [] {
      SortedIsSorted(s[..|s| - 1], gt);
      InsertKeepsSorted(InsertionSorted(s[..|s| - 1], gt), s[|s| - 1], gt);
    }
  }

  /** Moving `y` to the end does not change what `p` selects when nothing
      after `y` is selected together with it. */
  lemma SelectMove<T>(lo: seq<T>, y: T, hi: seq<T>, p: T -> bool)
    requires p(y) ==> forall j :: 0 <= j < |hi| ==> !p(hi[j])
    ensures Select(lo + [y] + hi, p) == Select(lo + hi + [y], p)
  {
    var sy := Select([y], p);
    assert sy == (if p(y) then [y] else []) by {
      assert [y][..0] == [];
    }
    SelectAppend(lo + [y], hi, p);
    SelectAppend(lo, [y], p);
    assert Select(lo + [y] + hi, p) == Select(lo, p) + sy + Select(hi, p);
    SelectAppend(lo + hi, [y], p);
    SelectAppend(lo, hi, p);
    assert Select(lo + hi + [y], p) == Select(lo, p) + Select(hi, p) + sy;
    if p(y) {
      SelectEmpty(hi, p);
      assert Select(hi, p) == [];
    } else {
      assert sy == [];
    }
  }

  lemma InsertStable<T>(s: seq<T>, y: T, gt: (T, T) -> bool, x: T)
    requires forall x, y :: gt(x, y) ==> !gt(y, x)
    requires forall x, y, z :: !gt(x, y) && !gt(y, z) ==> !gt(x, z)
    ensures Select(Insert(s, y, gt), TiedWith(gt, x)) == Select(s + [y], TiedWith(gt, x))
  {
    var p := TiedWith(gt, x);
    InsertSplit(s, y, gt);
    var k := InsertPos(s, y, gt);
    var lo, hi := s[..k], s[k..];
    assert s == lo + hi;
    // every element after the insertion point is strictly greater than y,
    // hence not tied with anything y is tied with
    assert p(y) ==> forall j :: 0 <= j < |hi| ==> !p(hi[j]) by {
      if p(y) {
        forall j | 0 <= j < |hi| ensures !p(hi[j]) {
          assert gt(hi[j], y);
        }
      }
    }
    SelectMove(lo, y, hi, p);
  }

  /** Stability: the elements tied with any `x` keep their relative order. */
  lemma {:induction false} SortedIsStable<T>(s: seq<T>, gt: (T, T) -> bool, x: T)
    requires forall x, y :: gt(x, y) ==> !gt(y, x)
    requires forall x, y, z :: !gt(x, y) && !gt(y, z) ==> !gt(x, z)
    ensures Select(InsertionSorted(s, gt), TiedWith(gt, x)) == Select(s, TiedWith(gt, x))
    decreases |s|
  {
    if s != [] {
      var s' := s[..|s| - 1];
      var p := TiedWith(gt, x);
      SortedIsStable(s', gt, x);
      InsertStable(InsertionSorted(s', gt), s[|s| - 1], gt, x);
      SelectAppend(InsertionSorted(s', gt), [s[|s| - 1]], p);
      SelectAppend(s', [s[|s| - 1]], p);
      assert s == s' + [s[|s| - 1]];
    }
  }

  /** The inner loop of one pass: every element of a[..i] greater than
      `key`, counting down from i - 1, moves one place right; k is the
      place left free. */
  method ShiftGreater<T>(a: array<T>, i: nat, key: T, gt: (T, T) -> bool) returns (k: nat)
    requires i < a.Length
    modifies a
    ensures k <= i
    ensures forall m :: 0 <= m < k ==> a[m] == old(a[m])
    ensures forall m :: k < m <= i ==> a[m] == old(a[m - 1])
    ensures forall m :: i < m < a.Length ==> a[m] == old(a[m])
    ensures forall m :: k <= m < i ==> gt(old(a[m]), key)
    ensures k > 0 ==> !gt(old(a[k - 1]), key)
  {
    ghost var q := a[..];
    var j := i - 1;
    while j >= 0 && gt(a[j], key)
      invariant -1 <= j < i
      invariant forall m :: 0 <= m <= j ==> a[m] == q[m]
      invariant forall m :: j + 2 <= m <= i ==> a[m] == q[m - 1]
      invariant forall m :: i < m < a.Length ==> a[m] == q[m]
      invariant forall m :: j < m < i ==> gt(q[m], key)
    {
      a[j + 1] := a[j];
      j := j - 1;
    }
    k := j + 1;
  }

  /** One pass of the outer loop: the key a[i] is shifted left past every
      element of the prefix a[..i] that is greater than it. */
  method InsertStep<T>(a: array<T>, i: nat, gt: (T, T) -> bool)
    requires i < a.Length
    modifies a
    ensures a[..i + 1] == Insert(old(a[..i]), old(a[i]), gt)
    ensures a[i + 1..] == old(a[i + 1..])
  {
    ghost var q := a[..];
    var key := a[i];
    var k := ShiftGreater(a, i, key, gt);
    a[k] := key;
    ghost var p := q[..i];
    InsertAt(p, key, gt, k);
    Shifted(a[..i + 1], p, key, k);
    assert a[i + 1..] == q[i + 1..];
  }

  /** The array prefix after the last write of InsertStep is the old prefix
      with the key placed at position k. */
  lemma Shifted<T>(q: seq<T>, p: seq<T>, key: T, k: nat)
    requires |q| == |p| + 1 && k <= |p|
    requires q[k] == key
    requires forall m :: 0 <= m < k ==> q[m] == p[m]
    requires forall m :: k < m < |q| ==> q[m] == p[m - 1]
    ensures q == p[..k] + [key] + p[k..]
  {
  }

  /** In-place insertion sort of the prefix a[..n], exactly as the print
      operations run it. */
  method InsertionSort<T>(a: array<T>, n: nat, gt: (T, T) -> bool)
    requires n <= a.Length
    modifies a
    ensures a[..n] == InsertionSorted(old(a[..n]), gt)
    ensures a[n..] == old(a[n..])
  {
    if n == 0 {
      return;
    }
    var i := 1;
    assert a[..1] == InsertionSorted(a[..1], gt) by {
      assert a[..1][..0] == [];
    }
    while i < n
      invariant 1 <= i <= n
      invariant a[..i] == InsertionSorted(old(a[..i]), gt)
      invariant a[i..] == old(a[i..])
    {
      ghost var before := a[..];
      InsertStep(a, i, gt);
      assert old(a[..i + 1])[..i] == old(a[..i]);
      assert old(a[..i + 1])[i] == before[i];
      i := i + 1;
    }
  }
}
