# SwiftyPathFinder core, modelled in Dafny

This project models the two algorithmic pieces of the SwiftyPathFinder package and proves properties about them.

**`PathFinder.getShortestPath(from:to:)`** (Sources/PathFinder/PathFinder.swift) is Dijkstra's algorithm over an adjacency dictionary `[String: [String: UInt32]]`.
- It keeps an array of unvisited nodes, a best-known cost per node and a best-known route per node.
- It relaxes the neighbours of the current node, then picks the cheapest unvisited node as the next current node, falling back to the destination.
- It returns the route to the destination, or `[]`.
- The `Path` value and its extend-by-one initializer are modelled too. `Path`'s memberwise initializer is the datatype constructor `PathFinder.Path`.

**`OrderedSet.sort(from:by:)`** (Sources/PathFinder/OrderedSetExtension.swift) re-sorts an ordered set after one element's key changed. It removes the element, binary-searches its upper-bound position under the comparator, and inserts it there.

Files:
- `sequences.dfy` (module `Sequences`): duplicate-free sequences, `firstIndex(of:)`, removing one element, and enumerating a dictionary's keys in an unspecified order.
- `pathfinder.dfy` (module `PathFinder`): `getShortestPath` as the method `ShortestPath`, written with the source's `while` loop and its neighbour loop. Also the loop invariants and the proof of least cost.
- `orderedset.dfy` (module `OrderedSetSort`): `sort(from:by:)` as the method `SortFrom`, with the binary search `UpperBoundIndex`, the specification function `Resorted`, and the lemmas about it.
- `pathfinder_examples.dfy` and `orderedset_examples.dfy`: the package's test scenarios, each derived from the contracts.

Modelling decisions:
- Costs are mathematical integers restricted to `0 ..= UInt32.max` (the subset type `UInt32`).
- Swift traps when `+` overflows. When the search runs (both endpoints known and different), the model instead requires `SumsFit`: every duplicate-free walk from the start costs at most `UInt32.max`. Under that precondition no addition the search performs can overflow.
- Dictionary iteration order and the order `sorted` gives equal costs are unspecified in Swift. The model picks keys, neighbours and the next node with `:|`, so every proof holds for every order.
- An `OrderedSet` is a duplicate-free `seq`. `sort(from:by:)` mutates a value type, and its model `SortFrom` returns the new value.
- The comparator is a total function `(T, T) -> bool`. Sortedness is claimed only when it is a strict weak order.

Behaviour the proofs make explicit:
- The code uses `UInt32.max` as "not reached yet" (`currentPathCost[n] ?? UInt32.max`), and relaxation needs a strictly smaller cost. So a destination whose cheapest route costs exactly `UInt32.max` is never recorded, and the result is `[]`. `ShortestPath`'s contract says this: the result is `[]` exactly when an endpoint is unknown or no route costs less than `UInt32.max`.
- Every recorded cost ends up below `UInt32.max`. So the test `currentPathCost[currentNode] == UInt32.max` (line 55) never succeeds, and the search returns only once the destination is chosen.
- The two `guard let index = unvisitedNodes.firstIndex(of:)` exits (lines 36 and 58) never fire, and the final `return []` (line 62) is unreachable. The destination stays in the unvisited array until it is chosen.
- A node listed with no neighbours, such as `"H": [:]` in the tests, is a valid endpoint. A query to it from elsewhere returns `[]` because no edge leads to it.
- Re-sorting from an element that is not in the set inserts it, matching `OrderedSet.insert(_:at:)`.

## Model

| member | source | states |
|---|---|---|
| PathFinder.Extend | Sources/PathFinder/PathFinder.swift:10-15 | the new path holds the old nodes followed by `node`, and its cost is the old cost plus `cost`; the sum must not overflow |
| PathFinder.ExtendAlongEdge | Sources/PathFinder/PathFinder.swift:10-15 | extending a path that carries its own walk cost along a graph edge, by that edge's cost, gives a route from the same first node to `node` that again carries its own cost and keeps the old nodes as a prefix |
| PathFinder.AppendEdge | Sources/PathFinder/PathFinder.swift:44-46 | appending a neighbour to a walk gives a walk whose cost is the old cost plus the edge cost |
| Sequences.EnumerateKeys | Sources/PathFinder/PathFinder.swift:31 | `Array(nodes.keys)` holds every key exactly once and nothing else |
| Sequences.IndexOf | Sources/PathFinder/PathFinder.swift:36 | `firstIndex(of:)` on a present element is a valid index holding it, with no earlier occurrence |
| Sequences.RemoveAt | Sources/PathFinder/PathFinder.swift:37 | `remove(at:)` shortens by one, adds nothing, and on a duplicate-free array removes exactly that element (multiset difference) |
| Sequences.Without | Sources/PathFinder/PathFinder.swift:58-59 | removing the first occurrence of `x` leaves the sequence unchanged when `x` is absent and shortens it by one otherwise; on a duplicate-free sequence the result is duplicate-free, lacks `x`, keeps every other element and has multiset `old - {x}`; `OrderedSet.remove(_:)` is the same function |
| PathFinder.InitialState | Sources/PathFinder/PathFinder.swift:31-37 | with costs `[start: 0]`, routes `[start: [start]]` and start removed from the keys, the loop invariant holds |
| PathFinder.RelaxFits | Sources/PathFinder/PathFinder.swift:43-44 | under `SumsFit` the sum `currentPathCost[currentNode]! + cost` for an unvisited neighbour never exceeds `UInt32.max` |
| PathFinder.CostOrMax | Sources/PathFinder/PathFinder.swift:43 | `currentPathCost[n] ?? UInt32.max` lies in `0 ..= UInt32.max`, is the recorded cost of `n` when there is one, and is below `UInt32.max` only for a recorded node |
| PathFinder.Relax | Sources/PathFinder/PathFinder.swift:41-49 | exactly the unvisited neighbours for which the cost through the current node is strictly below the recorded one (absent counts as `UInt32.max`) get that cost and the current route plus themselves; every other entry is unchanged; no cost rises |
| PathFinder.ExtendedEntry | Sources/PathFinder/PathFinder.swift:44-46 | the route recorded for an improved neighbour is a duplicate-free route from start, whose cost is the current cost plus the edge cost, and whose other nodes are all visited |
| PathFinder.RelaxedEntry | Sources/PathFinder/PathFinder.swift:41-49 | after relaxing, each recorded node's route starts at start, ends at the node, follows edges, has no repeats, costs the recorded cost (below `UInt32.max`) and passes only visited nodes |
| PathFinder.RelaxKeepsRecorded | Sources/PathFinder/PathFinder.swift:41-49 | relaxation keeps both dictionaries on the same keys with every entry sound |
| PathFinder.RelaxSettles | Sources/PathFinder/PathFinder.swift:41-49 | after relaxing the current node, the visited nodes keep least costs and all of them, the current node included, have had their neighbours relaxed |
| PathFinder.MinimumExists | Sources/PathFinder/PathFinder.swift:53-54 | a non-empty finite set of recorded nodes has one of least cost, so the sorted-then-first selection always has a candidate |
| PathFinder.SelectNext | Sources/PathFinder/PathFinder.swift:53-54 | the next node is an unvisited node of least recorded cost when one has a cost, and the destination otherwise |
| PathFinder.Crossing | Sources/PathFinder/PathFinder.swift:53-54 | any route from start to an unvisited node passes an unvisited recorded node no dearer than the route, unless the route costs at least `UInt32.max` |
| PathFinder.MinimalIsShortest | Sources/PathFinder/PathFinder.swift:53-54 | the chosen node's recorded cost is no higher than that of any route to it |
| PathFinder.SettleNext | Sources/PathFinder/PathFinder.swift:58-59 | removing the chosen node from the unvisited array re-establishes the loop invariant with that node current |
| PathFinder.FinalState | Sources/PathFinder/PathFinder.swift:55-56 | `currentPath[destination] ?? []` is a least-cost duplicate-free route when present, and is `[]` exactly when no route is cheaper than `UInt32.max` |
| PathFinder.RouteToSelf | Sources/PathFinder/PathFinder.swift:28 | `[start]` is a route from start to itself, of cost 0 and least cost |
| PathFinder.ShortestPath | Sources/PathFinder/PathFinder.swift:25-63 | with no bound on costs, an unknown endpoint gives `[]` and a known start equal to the destination gives `[start]`; when the search runs (under `SumsFit`), a non-empty result is a duplicate-free route from start to destination along edges, no dearer than any other route; the result is `[]` exactly when an endpoint is unknown or no route costs less than `UInt32.max`; the loop ends because the unvisited array shrinks by one each round |
| PathFinder.CostBound | Sources/PathFinder/PathFinder.swift:43-44 | a walk whose edges each cost at most `w` costs at most `w` per edge |
| PathFinder.SumsFitWhenBounded | Sources/PathFinder/PathFinder.swift:43-44 | when edges cost at most `w` and the graph has `k` nodes with `w * (k - 1) <= UInt32.max`, the no-overflow precondition holds for every start |
| OrderedSetSort.UpperBound | Sources/PathFinder/OrderedSetExtension.swift:17-24 | the upper-bound position is at most the length, the element is ordered before nothing in front of it, and it is ordered before the entry at that position |
| OrderedSetSort.UpperBoundUnique | Sources/PathFinder/OrderedSetExtension.swift:17-24 | any index with those two properties is the upper bound |
| OrderedSetSort.UpperBoundPartitions | Sources/PathFinder/OrderedSetExtension.swift:17-24 | in a sequence sorted under a strict weak order, the element is ordered before every entry from its upper bound on |
| OrderedSetSort.UpperBoundIndex | Sources/PathFinder/OrderedSetExtension.swift:14-24 | the binary search returns an index within bounds, right after an entry the element is not ordered before and right before one it is; on a sorted sequence under a strict weak order it is the upper bound; the gap `high - low` shrinks each round |
| OrderedSetSort.InsertFresh | Sources/PathFinder/OrderedSetExtension.swift:26 | inserting an absent element into a duplicate-free sequence keeps it duplicate-free, adds exactly that element, puts it at the given index, and removing it again gives the old sequence |
| OrderedSetSort.InsertAt | Sources/PathFinder/OrderedSetExtension.swift:26 | `insert(_:at:)` gives one more element: the old elements before index `i`, then `x` at `i`, then the old elements from `i` on |
| OrderedSetSort.SortFrom | Sources/PathFinder/OrderedSetExtension.swift:12-27 | the result holds each element once, with multiset `(old - {element}) + {element}`; the other elements keep their relative order; the element sits after an entry it is not ordered before and before one it is; if the others were sorted under a strict weak order, the result is `Resorted` |
| OrderedSetSort.ResortedSorted | Sources/PathFinder/OrderedSetExtension.swift:17-26 | if the other elements are sorted under a strict weak order, the re-sorted set is sorted, with the element after every entry it is not ordered before (ties included) and before every entry it is ordered before |
| OrderedSetSort.ResortedInPlace | Sources/PathFinder/OrderedSetExtension.swift:12-26 | re-sorting a sorted set from an element already before every entry ordered after it leaves the set unchanged |
| OrderedSetSort.SortedWithout | Sources/PathFinder/OrderedSetExtension.swift:13 | removing one element of a sorted duplicate-free set leaves the others sorted |
| OrderedSetSort.SortFromInPlace | Sources/PathFinder/OrderedSetExtension.swift:12-27 | `sort(from:by:)` on a sorted set, from an element already before every entry ordered after it and under a strict weak order, returns the set unchanged |
| PathFinderExamples.UnknownStartOrDestination | Tests/PathFinderTests/PathFinderTests.swift:15-19 | on the test graph, from `"0"` to A and from A to `"0"` the result is `[]` |
| PathFinderExamples.PathToSameNode | Tests/PathFinderTests/PathFinderTests.swift:21-24 | from A to A the result is `["A"]` |
| PathFinderExamples.OnlyCheapRouteToG | Tests/PathFinderTests/PathFinderTests.swift:26-29 | on the test graph the only route from A to G costing at most 19 is A, B, D, E, G |
| PathFinderExamples.SimpleGraphRoute | Tests/PathFinderTests/PathFinderTests.swift:26-29 | from A to G the result is `["A", "B", "D", "E", "G"]`, whatever order the dictionaries are walked in |
| PathFinderExamples.NoConnection | Tests/PathFinderTests/PathFinderTests.swift:31-35 | with `"H": [:]` added, from A to H the result is `[]` |
| PathFinderExamples.OverflowGraphDoesNotFit | Sources/PathFinder/PathFinder.swift:43-44 | on a graph of two edges costing `UInt32.max` each, the walk A, B, C costs more than `UInt32.max`, so the search from A does not meet `SumsFit` |
| PathFinderExamples.EarlyReturnsOnOverflowGraph | Sources/PathFinder/PathFinder.swift:26-29 | on that graph, an unknown destination still gives `[]` and from A to A still gives `["A"]`, because the early returns add nothing |
| OrderedSetExamples.NothingChanged | Tests/PathFinderTests/OrderedSetExtensionTests.swift:13-16 | re-sorting from C with unchanged keys gives A, B, C, D |
| OrderedSetExamples.EvenNumberOfElements | Tests/PathFinderTests/OrderedSetExtensionTests.swift:18-22 | after C's key drops to 0, re-sorting from C gives C, A, B, D |
| OrderedSetExamples.OddNumberOfElements | Tests/PathFinderTests/OrderedSetExtensionTests.swift:24-30 | with E (key 6) appended and D's key dropped to 0, re-sorting from D gives D, A, B, C, E |
| OrderedSetExamples.FirstChanged | Tests/PathFinderTests/OrderedSetExtensionTests.swift:32-36 | after A's key rises to 6, re-sorting from A gives B, C, D, A |
| OrderedSetExamples.LastChanged | Tests/PathFinderTests/OrderedSetExtensionTests.swift:38-42 | after D's key drops to 0, re-sorting from D gives D, A, B, C |
| OrderedSetExamples.ChangedToMiddle | Tests/PathFinderTests/OrderedSetExtensionTests.swift:44-50 | re-sorting after A rises to 6, then again after B rises to 5, gives C, D, B, A |

## Left out

- Unicode canonical equivalence: Swift compares `String`s and looks up dictionary keys up to canonical equivalence, while a Dafny `string` is compared scalar by scalar. Each node name stands for a Swift `String` taken in one normalized spelling (for example NFC), so two spellings of the same name, such as `"\u{E9}"` and `"e\u{301}"`, are not identified. This affects `ShortestPath`, `EnumerateKeys`, `IndexOf`, `Without` and the `start == destination` test.
- The SwiftUI demo (PathDemo/PathDemo/Views/MapView.swift, NodeView.swift, EdgeView.swift, TapGesture.swift): user interface with no logic to state.
- PathDemo/PathDemo/Views/CGPointExtension.swift: floating-point distances, `sqrt` and `Hashable` conformance.
- `UInt32` overflow trapping: not modelled as a trap. When both endpoints are known and differ, `ShortestPath` requires `SumsFit` instead. `Extend` requires the sum to fit.
- ShortestPath: when the search runs, `SumsFit` bounds every duplicate-free walk from the start, which is stronger than needed. The search only adds along the routes it records. The early returns for an unknown endpoint or `from == to` need no bound.
- Dictionary iteration order and the order `sorted` gives equal costs: unspecified, so the model fixes none. When several routes share the least cost, the contract does not say which one is returned.
- `OrderedSet`'s storage and hashing (the OrderedCollections library) and `throws`/`try!` on the comparator: a set is a duplicate-free sequence, and the comparator is a total, non-throwing function.
- In-place mutation of the `OrderedSet`: `SortFrom` returns the new value of the set rather than updating storage. Swift's `mutating` on a value type has no aliasing for this to lose.
- testLargeSet (Tests/PathFinderTests/OrderedSetExtensionTests.swift:52-71): a hundred-element literal, too large to evaluate in proofs. The contract of `SortFrom` and the lemma `ResortedSorted` cover it.
- The test strings "A" to "E" of the ordered-set tests are an enumeration `Letter`. Each state of the test's key dictionary is a key function.
