/**
  Sequence helpers shared by the path finder and the ordered-set re-sort:
  duplicate-free sequences, `firstIndex(of:)`, removal of one element, and
  the enumeration of a dictionary's keys in an unspecified order.
*/
module Sequences {

  /** No element occurs twice. */
  ghost predicate Distinct<T>(s: seq<T>) {
    forall i, j :: 0 <= i < j < |s| ==> s[i] != s[j]
  }

  /** Swift's `firstIndex(of:)`, for an element known to be present. */
  function IndexOf<T(==)>(s: seq<T>, x: T): (i: nat)
    requires x in s
    ensures i < |s| && s[i] == x && x !in s[..i]
  {
    if s[0] == x then 0 else 1 + IndexOf(s[1..], x)
  }

  /** IndexOf is the only position of an element in a duplicate-free sequence. */
  lemma IndexOfDistinct<T>(s: seq<T>, k: nat)
    requires Distinct(s) && k < |s|
    ensures IndexOf(s, s[k]) == k
  {
  }

  /** Removing the element at `k` of a duplicate-free sequence. */
  lemma WithoutAt<T>(s: seq<T>, k: nat)
    requires Distinct(s) && k < |s|
    ensures Without(s, s[k]) == s[..k] + s[k + 1..]
  {
    IndexOfDistinct(s, k);
  }

  /**
    Removes the first occurrence of `x`, if any: `remove(at: firstIndex(of:))`
    on an array, `remove(_:)` on an ordered set.
  */
  function Without<T(==)>(s: seq<T>, x: T): (r: seq<T>)
    ensures x in s ==> |r| == |s| - 1
    ensures x !in s ==> r == s
    ensures forall y :: y in r ==> y in s
    ensures Distinct(s) ==> Distinct(r) && x !in r && (forall y :: y in s && y != x ==> y in r)
    ensures Distinct(s) ==> multiset(r) == multiset(s) - multiset{x}
  {
    if x in s then
      var i := IndexOf(s, x);
      RemoveAt(s, i);
      s[..i] + s[i + 1..]
    else
      s
  }

  /** What is left after dropping the element at index `i`. */
  lemma RemoveAt<T>(s: seq<T>, i: nat)
    requires i < |s|
    ensures var r := s[..i] + s[i + 1..];
      && |r| == |s| - 1
      && (forall y :: y in r ==> y in s)
      && (Distinct(s) ==> Distinct(r) && s[i] !in r && (forall y :: y in s && y != s[i] ==> y in r))
      && (Distinct(s) ==> multiset(r) == multiset(s) - multiset{s[i]})
  {
    var r := s[..i] + s[i + 1..];
    assert s == s[..i] + [s[i]] + s[i + 1..];
    assert forall j :: 0 <= j < i ==> r[j] == s[j];
    assert forall j :: i <= j < |r| ==> r[j] == s[j + 1];
    if Distinct(s) {
      forall y | y in s && y != s[i]
        ensures y in r
      {
        var k :| 0 <= k < |s| && s[k] == y;
        if k < i {
          assert r[k] == y;
        } else {
          assert r[k - 1] == y;
        }
      }
    }
  }

  /** A duplicate-free sequence drawn from a finite set is no longer than the set. */
  lemma {:induction false} DistinctWithin<T>(s: seq<T>, within: set<T>)
    requires Distinct(s) && forall x :: x in s ==> x in within
    ensures |s| <= |within|
    decreases |s|
  {
    if s != [] {
      var x := s[|s| - 1];
      var front := s[..|s| - 1];
      assert forall y :: y in front ==> y in within - {x} by {
        forall y | y in front
          ensures y in within - {x}
        {
          var i :| 0 <= i < |front| && front[i] == y;
          assert s[i] == y && s[|s| - 1] == x;
        }
      }
      DistinctWithin(front, within - {x});
    }
  }

  /** `Array(dictionary.keys)`: every key once, in some order the model does not fix. */
  method EnumerateKeys<K, V>(m: map<K, V>) returns (keys: seq<K>)
    ensures Distinct(keys)
    ensures forall k :: k in keys <==> k in m
  {
    keys := [];
    var rest := m.Keys;
    while rest != {}
      invariant rest <= m.Keys
      invariant Distinct(keys)
      invariant forall k :: k in keys <==> k in m && k !in rest
      decreases |rest|
    {
      var k :| k in rest;
      keys := keys + [k];
      rest := rest - {k};
    }
  }
}
