/**
  Model of Sources/PathFinder/OrderedSetExtension.swift: `OrderedSet.sort(from:by:)`,
  which re-sorts an ordered set after one known element has changed its key, by
  removing it, binary-searching the upper-bound position and inserting it there.

  An `OrderedSet` is a duplicate-free sequence; the comparator
  `areInIncreasingOrder` is a total function, a strict weak order where sortedness
  is claimed.
*/
module OrderedSetSort {
  import opened Sequences

  /** Irreflexive, transitive and negatively transitive (incomparability is transitive). */
  ghost predicate StrictWeakOrder<T(!new)>(less: (T, T) -> bool) {
    && (forall x :: !less(x, x))
    && (forall x, y, z :: less(x, y) && less(y, z) ==> less(x, z))
    && (forall x, y, z :: less(x, z) ==> less(x, y) || less(y, z))
  }

  /** No element is ordered before an element that precedes it. */
  ghost predicate Sorted<T>(s: seq<T>, less: (T, T) -> bool) {
    forall i, j :: 0 <= i < j < |s| ==> !less(s[j], s[i])
  }

  /** `insert(_:at:)` */
  function InsertAt<T>(s: seq<T>, x: T, i: nat): (r: seq<T>)
    requires i <= |s|
    ensures |r| == |s| + 1 && r[i] == x
    ensures forall j :: 0 <= j < i ==> r[j] == s[j]
    ensures forall j :: i < j < |r| ==> r[j] == s[j - 1]
  {
    s[..i] + [x] + s[i..]
  }

  /**
    The upper-bound position of `x` in `s`, found by a linear scan: the first index
    whose element `x` is ordered before, or `|s|` when there is none.
  */
  function UpperBound<T>(s: seq<T>, x: T, less: (T, T) -> bool): (k: nat)
    ensures k <= |s|
    ensures forall j :: 0 <= j < k ==> !less(x, s[j])
    ensures k < |s| ==> less(x, s[k])
  {
    if s == [] then 0
    else if less(x, s[0]) then 0
    else 1 + UpperBound(s[1..], x, less)
  }

  /**
    The value `sort(from:by:)` is specified to produce: `element` removed and
    re-inserted at its upper-bound position among the others.
  */
  function Resorted<T(==)>(s: seq<T>, element: T, less: (T, T) -> bool): seq<T> {
    var rest := Without(s, element);
    InsertAt(rest, element, UpperBound(rest, element, less))
  }

  /** In a sorted sequence, everything from the upper bound of `x` on is ordered after `x`. */
  lemma UpperBoundPartitions<T(!new)>(s: seq<T>, x: T, less: (T, T) -> bool)
    requires StrictWeakOrder(less) && Sorted(s, less)
    ensures forall j :: UpperBound(s, x, less) <= j < |s| ==> less(x, s[j])
  {
    var k := UpperBound(s, x, less);
    forall j | k <= j < |s|
      ensures less(x, s[j])
    {
      assert less(x, s[k]) && !less(s[j], s[k]);
    }
  }

  /**
    Re-inserting at the upper bound keeps a sorted sequence sorted, and the element
    lands after every element it is not ordered before and before every element it
    is ordered before; in particular after elements with an equal key.
  */
  lemma ResortedSorted<T(!new)>(s: seq<T>, element: T, less: (T, T) -> bool)
    requires StrictWeakOrder(less) && Sorted(Without(s, element), less)
    ensures var r := Resorted(s, element, less);
      var k := UpperBound(Without(s, element), element, less);
      && k < |r| && r[k] == element
      && Sorted(r, less)
      && (forall j :: 0 <= j < k ==> !less(element, r[j]))
      && (forall j :: k < j < |r| ==> less(element, r[j]))
  {
    var rest := Without(s, element);
    var k := UpperBound(rest, element, less);
    var r := Resorted(s, element, less);
    UpperBoundPartitions(rest, element, less);
    assert forall j :: 0 <= j < k ==> r[j] == rest[j];
    assert forall j :: k < j < |r| ==> r[j] == rest[j - 1];
    forall i, j | 0 <= i < j < |r|
      ensures !less(r[j], r[i])
    {
      if j < k || k < i {
      } else if i == k {
        assert less(element, r[j]);
      } else {
        assert !less(element, r[i]);
      }
    }
  }

  /** Inserting an element that is absent from a duplicate-free sequence. */
  lemma InsertFresh<T>(s: seq<T>, x: T, i: nat)
    requires Distinct(s) && x !in s && i <= |s|
    ensures var r := InsertAt(s, x, i);
      && Distinct(r)
      && multiset(r) == multiset(s) + multiset{x}
      && IndexOf(r, x) == i
      && Without(r, x) == s
  {
    var r := InsertAt(s, x, i);
    assert r[i] == x && r[..i] == s[..i];
    assert r[..i] + r[i + 1..] == s;
    forall j, k | 0 <= j < k < |r|
      ensures r[j] != r[k]
    {
      if j < i && k < i {
        assert r[j] == s[j] && r[k] == s[k];
      } else if j < i && k > i {
        assert r[j] == s[j] && r[k] == s[k - 1];
      } else if j > i {
        assert r[j] == s[j - 1] && r[k] == s[k - 1];
      }
    }
  }

  /**
    The binary search of `sort(from:by:)`: `lowIndex` and `highIndex` close in on
    the upper-bound position of `element`. Whatever the order of `s`, the result
    sits right after an element `element` is not ordered before and right before
    one it is; when `s` is sorted under a strict weak order it is the upper bound.
  */
  method UpperBoundIndex<T(!new)>(s: seq<T>, element: T, less: (T, T) -> bool) returns (low: nat)
    ensures low <= |s|
    ensures 0 < low ==> !less(element, s[low - 1])
    ensures low < |s| ==> less(element, s[low])
    ensures StrictWeakOrder(less) && Sorted(s, less) ==> low == UpperBound(s, element, less)
  {
    low := 0;
    var high := |s|;
    while low != high
      invariant 0 <= low <= high <= |s|
      invariant 0 < low ==> !less(element, s[low - 1])
      invariant high < |s| ==> less(element, s[high])
      invariant StrictWeakOrder(less) && Sorted(s, less) ==>
        (forall j :: 0 <= j < low ==> !less(element, s[j])) &&
        (forall j :: high <= j < |s| ==> less(element, s[j]))
      decreases high - low
    {
      var mid := low + (high - low) / 2;
      if less(element, s[mid]) {
        high := mid;
      } else {
        low := mid + 1;
      }
    }
  }

  /**
    `OrderedSet.sort(from:by:)` on the set's value: the result holds the same
    elements, `element` included, each once; the others keep their relative order;
    and when the others were sorted under a strict weak order, the result is
    `Resorted` and hence sorted.
  */
  method SortFrom<T(==,!new)>(s: seq<T>, element: T, less: (T, T) -> bool) returns (r: seq<T>)
    requires Distinct(s)
    ensures Distinct(r)
    ensures multiset(r) == multiset(Without(s, element)) + multiset{element}
    ensures Without(r, element) == Without(s, element)
    ensures element in r
    ensures var i := IndexOf(r, element);
      (0 < i ==> !less(element, r[i - 1])) && (i < |r| - 1 ==> less(element, r[i + 1]))
    ensures StrictWeakOrder(less) && Sorted(Without(s, element), less) ==> r == Resorted(s, element, less)
  {
    var rest := Without(s, element);
    var low := UpperBoundIndex(rest, element, less);
    r := InsertAt(rest, element, low);
    InsertFresh(rest, element, low);
  }

  /** The upper bound is the only index with the two properties of its contract. */
  lemma UpperBoundUnique<T>(s: seq<T>, x: T, less: (T, T) -> bool, i: nat)
    requires i <= |s|
    requires forall j :: 0 <= j < i ==> !less(x, s[j])
    requires i < |s| ==> less(x, s[i])
    ensures UpperBound(s, x, less) == i
  {
  }

  /**
    If `element` already sits at its upper-bound position in a sorted set, re-sorting
    from it changes nothing.
  */
  lemma ResortedInPlace<T>(s: seq<T>, element: T, less: (T, T) -> bool, i: nat)
    requires Distinct(s) && Sorted(s, less)
    requires i < |s| && s[i] == element
    requires forall j :: i < j < |s| ==> less(element, s[j])
    ensures Resorted(s, element, less) == s
  {
    var rest := s[..i] + s[i + 1..];
    WithoutAt(s, i);
    forall j | 0 <= j < i
      ensures !less(element, rest[j])
    {
      assert rest[j] == s[j];
    }
    assert i < |rest| ==> rest[i] == s[i + 1];
    UpperBoundUnique(rest, element, less, i);
    assert rest[..i] == s[..i] && rest[i..] == s[i + 1..];
    assert s == s[..i] + [element] + s[i + 1..];
  }

  /** Removing one element of a sorted set leaves the others sorted. */
  lemma SortedWithout<T>(s: seq<T>, less: (T, T) -> bool, i: nat)
    requires Distinct(s) && Sorted(s, less) && i < |s|
    ensures Sorted(Without(s, s[i]), less)
  {
    WithoutAt(s, i);
    var rest := s[..i] + s[i + 1..];
    forall p, q | 0 <= p < q < |rest|
      ensures !less(rest[q], rest[p])
    {
      var p' := if p < i then p else p + 1;
      var q' := if q < i then q else q + 1;
      assert rest[p] == s[p'] && rest[q] == s[q'];
    }
  }

  /**
    `sort(from:by:)` on a sorted set whose `element` already sits before every
    entry ordered after it leaves the set unchanged.
  */
  method SortFromInPlace<T(==,!new)>(s: seq<T>, element: T, less: (T, T) -> bool, i: nat) returns (r: seq<T>)
    requires StrictWeakOrder(less) && Distinct(s) && Sorted(s, less)
    requires i < |s| && s[i] == element
    requires forall j :: i < j < |s| ==> less(element, s[j])
    ensures r == s
  {
    SortedWithout(s, less, i);
    ResortedInPlace(s, element, less, i);
    r := SortFrom(s, element, less);
  }
}
