/** Sequence helpers shared by the registries: first-match search, filtering
    and the swap-with-last removal used by Fleet and Reservation. */
module Seqs {

  /** Index of the first element satisfying `p`, or -1 when there is none
      (the NOT_FOUND convention of the linear `find` loops). */
  function FirstIndex<T>(s: seq<T>, p: T -> bool): (i: int)
    ensures -1 <= i < |s|
    ensures 0 <= i ==> p(s[i]) && forall j :: 0 <= j < i ==> !p(s[j])
    ensures i == -1 ==> forall j :: 0 <= j < |s| ==> !p(s[j])
    decreases |s|
  {
    if s == [] then -1
    else if p(s[0]) then 0
    else
      var k := FirstIndex(s[1..], p);
      assert forall j :: 1 <= j < |s| ==> s[j] == s[1..][j - 1];
      if k == -1 then -1 else k + 1
  }

  /** A first-match index pinned down by its defining properties. */
  lemma FirstIndexIs<T>(s: seq<T>, p: T -> bool, i: int)
    requires -1 <= i < |s|
    requires 0 <= i ==> p(s[i])
    requires forall j :: 0 <= j < i || (i == -1 && 0 <= j < |s|) ==> !p(s[j])
    ensures FirstIndex(s, p) == i
  {
  }

  /** The elements of `s` satisfying `p`, in their original order. */
  function Select<T>(s: seq<T>, p: T -> bool): (r: seq<T>)
    ensures |r| <= |s|
    decreases |s|
  {
    if s == [] then []
    else if p(s[|s| - 1]) then Select(s[..|s| - 1], p) + [s[|s| - 1]]
    else Select(s[..|s| - 1], p)
  }

  lemma {:induction false} SelectAppend<T>(a: seq<T>, b: seq<T>, p: T -> bool)
    ensures Select(a + b, p) == Select(a, p) + Select(b, p)
    decreases |b|
  {
    if b == [] {
      assert a + b == a;
    } else {
      var b' := b[..|b| - 1];
      assert (a + b)[..|a + b| - 1] == a + b';
      SelectAppend(a, b', p);
    }
  }

  /** Every element of `s` is rejected by `p` exactly when nothing is selected. */
  lemma {:induction false} SelectEmpty<T>(s: seq<T>, p: T -> bool)
    ensures Select(s, p) == [] <==> forall j :: 0 <= j < |s| ==> !p(s[j])
    decreases |s|
  {
    if s != [] {
      var s' := s[..|s| - 1];
      SelectEmpty(s', p);
      assert forall j :: 0 <= j < |s'| ==> s'[j] == s[j];
    }
  }

  /** Nothing is dropped when every element satisfies `p`. */
  lemma {:induction false} SelectAll<T>(s: seq<T>, p: T -> bool)
    requires forall j :: 0 <= j < |s| ==> p(s[j])
    ensures Select(s, p) == s
    decreases |s|
  {
    if s != [] {
      var s' := s[..|s| - 1];
      SelectAll(s', p);
      assert s' + [s[|s| - 1]] == s;
    }
  }

  /** Swap-with-last removal: slot `i` receives the last element and the
      sequence loses its last position. */
  function SwapRemove<T>(s: seq<T>, i: nat): (r: seq<T>)
    requires i < |s|
    ensures |r| == |s| - 1
    ensures forall j :: 0 <= j < |r| && j != i ==> r[j] == s[j]
    ensures i < |r| ==> r[i] == s[|s| - 1]
  {
    s[i := s[|s| - 1]][..|s| - 1]
  }

  /** Swap-with-last removal deletes exactly one occurrence of `s[i]`. */
  lemma SwapRemoveMultiset<T>(s: seq<T>, i: nat)
    requires i < |s|
    ensures multiset(SwapRemove(s, i)) == multiset(s) - multiset{s[i]}
  {
    var n := |s| - 1;
    var r := SwapRemove(s, i);
    if i == n {
      assert s == r + [s[n]];
    } else {
      SwapRemoveShape(s, i);
      var front, middle := s[..i], s[i + 1..n];
      assert s == front + [s[i]] + middle + [s[n]];
      ExchangeMultiset(front, s[i], middle, s[n]);
    }
    MinusOne(multiset(s), multiset(r), s[i]);
  }

  lemma MinusOne<T>(a: multiset<T>, b: multiset<T>, x: T)
    requires a == b + multiset{x}
    ensures b == a - multiset{x}
  {
  }

  lemma ExchangeMultiset<T>(front: seq<T>, x: T, middle: seq<T>, y: T)
    ensures multiset(front + [x] + middle + [y]) == multiset(front + [y] + middle) + multiset{x}
  {
  }

  /** Removing before the last place moves the last element into the gap. */
  lemma SwapRemoveShape<T>(s: seq<T>, i: nat)
    requires i < |s| - 1
    ensures SwapRemove(s, i) == s[..i] + [s[|s| - 1]] + s[i + 1..|s| - 1]
  {
    var r, t := SwapRemove(s, i), s[..i] + [s[|s| - 1]] + s[i + 1..|s| - 1];
    assert |r| == |t|;
    forall j | 0 <= j < |r| ensures r[j] == t[j] {
      if j < i {
      } else if j == i {
      } else {
        assert t[j] == s[i + 1..|s| - 1][j - i - 1];
      }
    }
  }

  /** Every element of the swap-removed sequence comes from `s`, and every
      element of `s` other than `s[i]` survives. */
  lemma SwapRemoveElements<T>(s: seq<T>, i: nat)
    requires i < |s|
    ensures forall j :: 0 <= j < |s| - 1 ==> SwapRemove(s, i)[j] in s
    ensures forall j :: 0 <= j < |s| && s[j] != s[i] ==> s[j] in SwapRemove(s, i)
  {
    var r := SwapRemove(s, i);
    forall j | 0 <= j < |s| && s[j] != s[i] ensures s[j] in r {
      if j == |s| - 1 {
        assert r[i] == s[j];
      } else {
        assert r[j] == s[j];
      }
    }
  }

  /** `p` holds for every ordered pair of elements at distinct positions. */
  predicate Pairwise<T>(s: seq<T>, p: (T, T) -> bool)
  {
    forall i, j :: 0 <= i < |s| && 0 <= j < |s| && i != j ==> p(s[i], s[j])
  }

  /** Appending keeps a pairwise property exactly when the new element is
      compatible with every old one, both ways round. */
  lemma PairwiseAppend<T>(s: seq<T>, x: T, p: (T, T) -> bool)
    ensures Pairwise(s + [x], p) <==> Pairwise(s, p) && forall j :: 0 <= j < |s| ==> p(s[j], x) && p(x, s[j])
  {
    var t := s + [x];
    if Pairwise(s, p) && forall j :: 0 <= j < |s| ==> p(s[j], x) && p(x, s[j]) {
      forall i, j | 0 <= i < |t| && 0 <= j < |t| && i != j ensures p(t[i], t[j]) {
        if i < |s| && j < |s| {
          assert t[i] == s[i] && t[j] == s[j];
        }
      }
    }
    if Pairwise(t, p) {
      forall i, j | 0 <= i < |s| && 0 <= j < |s| && i != j ensures p(s[i], s[j]) {
        assert t[i] == s[i] && t[j] == s[j];
      }
      forall j | 0 <= j < |s| ensures p(s[j], x) && p(x, s[j]) {
        assert t[j] == s[j] && t[|s|] == x;
      }
    }
  }

  /** Swap-with-last removal keeps a pairwise property: distinct positions
      of the result come from distinct positions of `s`. */
  lemma PairwiseSwapRemove<T>(s: seq<T>, i: nat, p: (T, T) -> bool)
    requires i < |s| && Pairwise(s, p)
    ensures Pairwise(SwapRemove(s, i), p)
  {
    var r := SwapRemove(s, i);
    var n := |s| - 1;
    forall a, b | 0 <= a < |r| && 0 <= b < |r| && a != b ensures p(r[a], r[b]) {
      var a' := if a == i then n else a;
      var b' := if b == i then n else b;
      assert r[a] == s[a'] && r[b] == s[b'];
    }
  }
}
