/**
  The scenarios of Tests/PathFinderTests/OrderedSetExtensionTests.swift, derived
  from the contract of `SortFrom`. The tests order the strings "A" to "E" by an
  integer key looked up in a dictionary, `{ map[$0]! < map[$1]! }`; here the
  strings are an enumeration and each state of the dictionary is a key function
  with its comparator.
*/
module OrderedSetExamples {
  import opened Sequences
  import opened OrderedSetSort

  datatype Letter = A | B | C | D | E

  /** The keys as first set up: A 1, B 2, C 3, D 4 (E, added by one test, 6). */
  function InitialKey(x: Letter): int {
    match x
    case A => 1
    case B => 2
    case C => 3
    case D => 4
    case E => 6
  }

  /** After `map["C"] = 0`. */
  function CDroppedKey(x: Letter): int {
    if x == C then 0 else InitialKey(x)
  }

  /** After `map["D"] = 0`. */
  function DDroppedKey(x: Letter): int {
    if x == D then 0 else InitialKey(x)
  }

  /** After `map["A"] = 6`. */
  function ARaisedKey(x: Letter): int {
    if x == A then 6 else InitialKey(x)
  }

  /** After `map["A"] = 6` and then `map["B"] = 5`. */
  function BRaisedKey(x: Letter): int {
    if x == B then 5 else ARaisedKey(x)
  }

  function InitialLess(x: Letter, y: Letter): bool { InitialKey(x) < InitialKey(y) }
  function CDroppedLess(x: Letter, y: Letter): bool { CDroppedKey(x) < CDroppedKey(y) }
  function DDroppedLess(x: Letter, y: Letter): bool { DDroppedKey(x) < DDroppedKey(y) }
  function ARaisedLess(x: Letter, y: Letter): bool { ARaisedKey(x) < ARaisedKey(y) }
  function BRaisedLess(x: Letter, y: Letter): bool { BRaisedKey(x) < BRaisedKey(y) }

  /** Comparing integer keys is a strict weak order, in every state of the keys. */
  lemma KeyOrdersAreStrictWeak()
    ensures StrictWeakOrder(InitialLess) && StrictWeakOrder(CDroppedLess)
    ensures StrictWeakOrder(DDroppedLess) && StrictWeakOrder(ARaisedLess)
    ensures StrictWeakOrder(BRaisedLess)
  {
  }

  /** `Resorted` from its three steps, each established separately. */
  lemma ResortedBySteps<T>(s: seq<T>, e: T, less: (T, T) -> bool, rest: seq<T>, k: nat, expected: seq<T>)
    requires Without(s, e) == rest && UpperBound(rest, e, less) == k
    requires k <= |rest| && InsertAt(rest, e, k) == expected
    ensures Resorted(s, e, less) == expected
  {
  }

  // The sets the tests re-sort.
  lemma SetsDistinct()
    ensures Distinct([A, B, C, D]) && Distinct([A, B, C, D, E]) && Distinct([B, C, D, A])
  {
  }

  // The removals.
  lemma RemoveA() ensures Without([A, B, C, D], A) == [B, C, D] {}
  lemma RemoveB() ensures Without([B, C, D, A], B) == [C, D, A] {}
  lemma RemoveC() ensures Without([A, B, C, D], C) == [A, B, D] {
    assert IndexOf([A, B, C, D], C) == 2;
  }
  lemma RemoveD() ensures Without([A, B, C, D], D) == [A, B, C] {
    assert IndexOf([A, B, C, D], D) == 3;
  }
  lemma RemoveDOfFive() ensures Without([A, B, C, D, E], D) == [A, B, C, E] {
    assert IndexOf([A, B, C, D, E], D) == 3;
  }

  // The remaining elements are sorted.
  lemma SortedABD() ensures Sorted([A, B, D], InitialLess) && Sorted([A, B, D], CDroppedLess) {}
  lemma SortedABC() ensures Sorted([A, B, C], DDroppedLess) {}
  lemma SortedABCE() ensures Sorted([A, B, C, E], DDroppedLess) {}
  lemma SortedBCD() ensures Sorted([B, C, D], ARaisedLess) {}
  lemma SortedCDA() ensures Sorted([C, D, A], BRaisedLess) {}

  // The upper bounds.
  lemma BoundUnchanged() ensures UpperBound([A, B, D], C, InitialLess) == 2 {
    assert [A, B, D][1..] == [B, D] && [B, D][1..] == [D];
  }
  lemma BoundCDropped() ensures UpperBound([A, B, D], C, CDroppedLess) == 0 {}
  lemma BoundDDropped() ensures UpperBound([A, B, C], D, DDroppedLess) == 0 {}
  lemma BoundDDroppedOfFive() ensures UpperBound([A, B, C, E], D, DDroppedLess) == 0 {}
  lemma BoundARaised() ensures UpperBound([B, C, D], A, ARaisedLess) == 3 {
    assert [B, C, D][1..] == [C, D] && [C, D][1..] == [D] && [D][1..] == [];
  }
  lemma BoundBRaised() ensures UpperBound([C, D, A], B, BRaisedLess) == 2 {
    assert [C, D, A][1..] == [D, A] && [D, A][1..] == [A];
  }

  // The insertions.
  lemma Insertions()
    ensures InsertAt([A, B, D], C, 2) == [A, B, C, D]
    ensures InsertAt([A, B, D], C, 0) == [C, A, B, D]
    ensures InsertAt([A, B, C], D, 0) == [D, A, B, C]
    ensures InsertAt([A, B, C, E], D, 0) == [D, A, B, C, E]
    ensures InsertAt([B, C, D], A, 3) == [B, C, D, A]
    ensures InsertAt([C, D, A], B, 2) == [C, D, B, A]
  {
  }

  /** testNothingChanged: re-sorting from C with unchanged keys keeps A, B, C, D. */
  method NothingChanged() returns (r: seq<Letter>)
    ensures r == [A, B, C, D]
  {
    SetsDistinct(); RemoveC(); SortedABD(); BoundUnchanged(); Insertions();
    ResortedBySteps([A, B, C, D], C, InitialLess, [A, B, D], 2, [A, B, C, D]);
    KeyOrdersAreStrictWeak();
    r := SortFrom([A, B, C, D], C, InitialLess);
  }

  /** testEvenNumberOfElements: C's key drops to 0, giving C, A, B, D. */
  method EvenNumberOfElements() returns (r: seq<Letter>)
    ensures r == [C, A, B, D]
  {
    SetsDistinct(); RemoveC(); SortedABD(); BoundCDropped(); Insertions();
    ResortedBySteps([A, B, C, D], C, CDroppedLess, [A, B, D], 0, [C, A, B, D]);
    KeyOrdersAreStrictWeak();
    r := SortFrom([A, B, C, D], C, CDroppedLess);
  }

  /** testOddNumberOfElements: E (key 6) is appended, D's key drops to 0, giving D, A, B, C, E. */
  method OddNumberOfElements() returns (r: seq<Letter>)
    ensures r == [D, A, B, C, E]
  {
    var s := [A, B, C, D] + [E];
    assert s == [A, B, C, D, E];
    SetsDistinct(); RemoveDOfFive(); SortedABCE(); BoundDDroppedOfFive(); Insertions();
    ResortedBySteps(s, D, DDroppedLess, [A, B, C, E], 0, [D, A, B, C, E]);
    KeyOrdersAreStrictWeak();
    r := SortFrom(s, D, DDroppedLess);
  }

  /** testFirstChanged: A's key rises to 6, giving B, C, D, A. */
  method FirstChanged() returns (r: seq<Letter>)
    ensures r == [B, C, D, A]
  {
    SetsDistinct(); RemoveA(); SortedBCD(); BoundARaised(); Insertions();
    ResortedBySteps([A, B, C, D], A, ARaisedLess, [B, C, D], 3, [B, C, D, A]);
    KeyOrdersAreStrictWeak();
    r := SortFrom([A, B, C, D], A, ARaisedLess);
  }

  /** testLastChanged: D's key drops to 0, giving D, A, B, C. */
  method LastChanged() returns (r: seq<Letter>)
    ensures r == [D, A, B, C]
  {
    SetsDistinct(); RemoveD(); SortedABC(); BoundDDropped(); Insertions();
    ResortedBySteps([A, B, C, D], D, DDroppedLess, [A, B, C], 0, [D, A, B, C]);
    KeyOrdersAreStrictWeak();
    r := SortFrom([A, B, C, D], D, DDroppedLess);
  }

  /** testChangedToMiddle: A rises to 6 and the set is re-sorted, then B rises to 5; the set becomes C, D, B, A. */
  method ChangedToMiddle() returns (r: seq<Letter>)
    ensures r == [C, D, B, A]
  {
    var first := FirstChanged();
    SetsDistinct(); RemoveB(); SortedCDA(); BoundBRaised(); Insertions();
    ResortedBySteps(first, B, BRaisedLess, [C, D, A], 2, [C, D, B, A]);
    KeyOrdersAreStrictWeak();
    r := SortFrom(first, B, BRaisedLess);
  }
}
