/**
  Model of Sources/PathFinder/PathFinder.swift: the `Path` value and
  `PathFinder.getShortestPath(from:to:)`, Dijkstra's algorithm over an
  adjacency dictionary, kept with an unvisited array and no priority queue.

  Costs are Swift `UInt32`; the dictionary lookup `currentPathCost[n] ?? UInt32.max`
  uses the largest value as "not reached yet".
*/
module PathFinder {
  import opened Sequences

  /**
    A node name. Swift compares `String`s, and looks them up as dictionary keys, up
    to Unicode canonical equivalence; here each node is taken in one normalized
    spelling (for example NFC), so comparing scalar by scalar agrees with Swift.
  */
  type Node = string

  const UINT32_MAX: int := 0xFFFF_FFFF

  type UInt32 = c: int | 0 <= c <= UINT32_MAX

  /** `[String: [String: UInt32]]`: node -> neighbour -> edge cost. */
  type Graph = map<Node, map<Node, UInt32>>

  /** The `Path` struct; its memberwise `init(nodes:cost:)` is the datatype constructor. */
  datatype Path = Path(nodes: seq<Node>, cost: UInt32)

  /**
    `Path(from:node:cost:)`: the old nodes followed by `node`, at the old cost plus
    `cost` (`+=` traps on overflow, hence the precondition).
  */
  function Extend(oldPath: Path, node: Node, cost: UInt32): (p: Path)
    requires oldPath.cost + cost <= UINT32_MAX
    ensures |p.nodes| == |oldPath.nodes| + 1
    ensures p.nodes[..|oldPath.nodes|] == oldPath.nodes && p.nodes[|oldPath.nodes|] == node
    ensures p.cost - cost == oldPath.cost
  {
    Path(oldPath.nodes + [node], oldPath.cost + cost)
  }

  // ---------------------------------------------------------------------------
  // Routes in a graph

  /** A non-empty node sequence whose consecutive entries are edges of `g`. */
  ghost predicate IsWalk(g: Graph, p: seq<Node>) {
    |p| >= 1 && forall i :: 0 <= i < |p| - 1 ==> p[i] in g && p[i + 1] in g[p[i]]
  }

  /** A walk from `from` to `to`. */
  ghost predicate IsRoute(g: Graph, p: seq<Node>, from: Node, to: Node) {
    IsWalk(g, p) && p[0] == from && p[|p| - 1] == to
  }

  /** The sum of the edge costs along a walk. */
  ghost function PathCost(g: Graph, p: seq<Node>): nat
    requires IsWalk(g, p)
    decreases |p|
  {
    if |p| == 1 then 0
    else
      assert IsWalk(g, p[..|p| - 1]);
      PathCost(g, p[..|p| - 1]) + g[p[|p| - 2]][p[|p| - 1]]
  }

  /** No route from `start` to `n` costs less than `c`. */
  ghost predicate Shortest(g: Graph, start: Node, n: Node, c: int) {
    forall p :: IsRoute(g, p, start, n) ==> c <= PathCost(g, p)
  }

  /** Some route from `from` to `to` costs less than `UInt32.max`. */
  ghost predicate ReachableBelowMax(g: Graph, from: Node, to: Node) {
    exists p :: IsRoute(g, p, from, to) && PathCost(g, p) < UINT32_MAX
  }

  /**
    Every duplicate-free walk from `start` costs at most `UInt32.max`, so none of
    the additions the search performs can trap.
  */
  ghost predicate SumsFit(g: Graph, start: Node) {
    forall p :: IsWalk(g, p) && p[0] == start && Distinct(p) ==> PathCost(g, p) <= UINT32_MAX
  }

  /** Appending an edge to a walk extends the walk and adds the edge's cost. */
  lemma AppendEdge(g: Graph, p: seq<Node>, x: Node)
    requires IsWalk(g, p) && p[|p| - 1] in g && x in g[p[|p| - 1]]
    ensures IsWalk(g, p + [x])
    ensures PathCost(g, p + [x]) == PathCost(g, p) + g[p[|p| - 1]][x]
  {
    assert (p + [x])[..|p|] == p;
  }

  /**
    A `Path` whose cost is that of its walk, extended along an edge of the graph
    by that edge's cost, is again a walk of the graph carrying its own cost.
  */
  lemma ExtendAlongEdge(g: Graph, oldPath: Path, node: Node)
    requires IsWalk(g, oldPath.nodes) && oldPath.cost == PathCost(g, oldPath.nodes)
    requires oldPath.nodes[|oldPath.nodes| - 1] in g
    requires node in g[oldPath.nodes[|oldPath.nodes| - 1]]
    requires oldPath.cost + g[oldPath.nodes[|oldPath.nodes| - 1]][node] <= UINT32_MAX
    ensures var p := Extend(oldPath, node, g[oldPath.nodes[|oldPath.nodes| - 1]][node]);
      && IsRoute(g, p.nodes, oldPath.nodes[0], node)
      && p.cost == PathCost(g, p.nodes)
      && p.nodes[..|oldPath.nodes|] == oldPath.nodes
  {
    AppendEdge(g, oldPath.nodes, node);
  }

  /** A walk whose edges each cost at most `w` costs at most `w` per edge. */
  lemma {:induction false} CostBound(g: Graph, p: seq<Node>, w: nat)
    requires IsWalk(g, p)
    requires forall u, v :: u in g && v in g[u] ==> g[u][v] <= w
    ensures PathCost(g, p) <= w * (|p| - 1)
    decreases |p|
  {
    if |p| > 1 {
      var q := p[..|p| - 1];
      assert IsWalk(g, q);
      CostBound(g, q, w);
      assert w * (|p| - 1) == w * (|q| - 1) + w;
    }
  }

  /**
    The precondition of the search holds when every edge costs at most `w`, every
    node lies in `nodes`, and a duplicate-free walk through all of `nodes` cannot
    exceed `UInt32.max`.
  */
  lemma SumsFitWhenBounded(g: Graph, start: Node, nodes: set<Node>, w: nat)
    requires forall u :: u in g ==> u in nodes
    requires forall u, v :: u in g && v in g[u] ==> v in nodes
    requires forall u, v :: u in g && v in g[u] ==> g[u][v] <= w
    requires w * (|nodes| - 1) <= UINT32_MAX
    ensures SumsFit(g, start)
  {
    forall p | IsWalk(g, p) && p[0] == start && Distinct(p)
      ensures PathCost(g, p) <= UINT32_MAX
    {
      CostBound(g, p, w);
      if |p| > 1 {
        forall x | x in p
          ensures x in nodes
        {
          var i :| 0 <= i < |p| && p[i] == x;
          if i < |p| - 1 {
            assert p[i] in g;
          } else {
            assert p[i - 1] in g && p[i] in g[p[i - 1]];
          }
        }
        DistinctWithin(p, nodes);
        MultiplyMonotone(w, |p| - 1, |nodes| - 1);
      }
    }
  }

  lemma MultiplyMonotone(w: nat, a: nat, b: nat)
    requires a <= b
    ensures w * a <= w * b
  {
    assert w * b == w * a + w * (b - a);
  }

  // ---------------------------------------------------------------------------
  // The search state of getShortestPath and its invariants

  /** `currentPathCost[n] ?? UInt32.max` */
  function CostOrMax(cost: map<Node, UInt32>, n: Node): (c: int)
    ensures 0 <= c <= UINT32_MAX
    ensures c < UINT32_MAX ==> n in cost && cost[n] == c
    ensures n in cost ==> c == cost[n]
  {
    if n in cost then cost[n] else UINT32_MAX
  }

  /**
    The recorded entry of `n` is a duplicate-free route from `start` whose cost
    is recorded and below `UInt32.max`, and every node on it except `n` itself
    has already been visited.
  */
  ghost predicate EntryOk(g: Graph, start: Node, unvisited: seq<Node>,
                          cost: map<Node, UInt32>, path: map<Node, seq<Node>>, n: Node)
  {
    && n in cost && n in path
    && IsRoute(g, path[n], start, n) && Distinct(path[n])
    && cost[n] == PathCost(g, path[n]) && cost[n] < UINT32_MAX
    && forall m :: m in path[n] && m != n ==> m !in unvisited
  }

  /** The cost and path dictionaries have the same keys and every entry is sound. */
  ghost predicate Recorded(g: Graph, start: Node, unvisited: seq<Node>,
                           cost: map<Node, UInt32>, path: map<Node, seq<Node>>)
  {
    && cost.Keys == path.Keys
    && forall n :: n in cost ==> EntryOk(g, start, unvisited, cost, path, n)
  }

  /** Every visited node has a recorded cost, and that cost is the least of any route. */
  ghost predicate Settled(g: Graph, start: Node, unvisited: seq<Node>, cost: map<Node, UInt32>) {
    forall n :: n in g && n !in unvisited ==> n in cost && Shortest(g, start, n, cost[n])
  }

  /**
    The neighbours of `d` have been relaxed: every unvisited neighbour reached
    from `d` below `UInt32.max` has a recorded cost no higher than through `d`.
  */
  ghost predicate RelaxedFrom(g: Graph, d: Node, unvisited: seq<Node>, cost: map<Node, UInt32>) {
    && d in g && d in cost
    && forall n :: n in g[d] && n in unvisited && cost[d] + g[d][n] < UINT32_MAX ==>
         n in cost && cost[n] <= cost[d] + g[d][n]
  }

  /** Every visited node other than `current` has had its neighbours relaxed. */
  ghost predicate RelaxedExcept(g: Graph, unvisited: seq<Node>, cost: map<Node, UInt32>, current: Node) {
    forall d :: d in g && d !in unvisited && d != current ==> RelaxedFrom(g, d, unvisited, cost)
  }

  /** Every visited node has had its neighbours relaxed. */
  ghost predicate AllRelaxed(g: Graph, unvisited: seq<Node>, cost: map<Node, UInt32>) {
    forall d :: d in g && d !in unvisited ==> RelaxedFrom(g, d, unvisited, cost)
  }

  /** The unvisited array: duplicate-free keys of the graph, holding the destination but not the start. */
  ghost predicate UnvisitedOk(g: Graph, start: Node, destination: Node, unvisited: seq<Node>) {
    && Distinct(unvisited)
    && (forall n :: n in unvisited ==> n in g)
    && start in g && start !in unvisited && destination in unvisited
  }

  /** The invariant of the main `while` loop, at its head. */
  ghost predicate SearchInvariant(g: Graph, start: Node, destination: Node, unvisited: seq<Node>,
                                  cost: map<Node, UInt32>, path: map<Node, seq<Node>>, current: Node)
  {
    && UnvisitedOk(g, start, destination, unvisited)
    && current in g && current !in unvisited
    && Recorded(g, start, unvisited, cost, path)
    && Settled(g, start, unvisited, cost)
    && RelaxedExcept(g, unvisited, cost, current)
  }

  // ---------------------------------------------------------------------------
  // Relaxation (PathFinder.swift lines 41-49)

  /** Relaxing `current` lowers the recorded cost of neighbour `n`. */
  ghost predicate Improves(g: Graph, current: Node, unvisited: seq<Node>, cost: map<Node, UInt32>, n: Node)
    requires current in cost
  {
    current in g && n in g[current] && n in unvisited && cost[current] + g[current][n] < CostOrMax(cost, n)
  }

  /**
    The dictionaries after relaxing `current`: exactly the improved neighbours get
    the cost through `current` and the path of `current` extended by themselves;
    every other entry is as before.
  */
  ghost predicate RelaxResult(g: Graph, current: Node, unvisited: seq<Node>,
                              cost: map<Node, UInt32>, path: map<Node, seq<Node>>,
                              cost': map<Node, UInt32>, path': map<Node, seq<Node>>)
    requires current in cost && current in path
  {
    && (forall n :: n in cost' <==> n in cost || Improves(g, current, unvisited, cost, n))
    && (forall n :: n in path' <==> n in path || Improves(g, current, unvisited, cost, n))
    && (forall n :: Improves(g, current, unvisited, cost, n) ==>
          n in cost' && n in path' &&
          cost'[n] == cost[current] + g[current][n] && path'[n] == path[current] + [n])
    && (forall n :: n in cost && !Improves(g, current, unvisited, cost, n) ==> n in cost' && cost'[n] == cost[n])
    && (forall n :: n in path && !Improves(g, current, unvisited, cost, n) ==> n in path' && path'[n] == path[n])
  }

  /**
    The neighbour loop of `getShortestPath` (PathFinder.swift, lines 41-49): for each
    still unvisited neighbour, record the route through `current` when it is strictly cheaper than
    the recorded one. Neighbours are visited in an order the model does not fix.
  */
  method Relax(g: Graph, current: Node, unvisited: seq<Node>,
               cost: map<Node, UInt32>, path: map<Node, seq<Node>>)
    returns (cost': map<Node, UInt32>, path': map<Node, seq<Node>>)
    requires current in cost && current in path && current !in unvisited
    requires current in g ==>
      forall n :: n in g[current] && n in unvisited ==> cost[current] + g[current][n] <= UINT32_MAX
    ensures RelaxResult(g, current, unvisited, cost, path, cost', path')
    ensures forall n :: n in cost ==> n in cost' && cost'[n] <= cost[n]
  {
    cost', path' := cost, path;
    if current in g {
      var neighbors := g[current];
      var rest := neighbors.Keys;
      while rest != {}
        invariant rest <= neighbors.Keys
        invariant current in cost' && cost'[current] == cost[current]
        invariant current in path' && path'[current] == path[current]
        invariant forall n :: n in cost' <==> n in cost || (n !in rest && Improves(g, current, unvisited, cost, n))
        invariant forall n :: n in path' <==> n in path || (n !in rest && Improves(g, current, unvisited, cost, n))
        invariant forall n :: n !in rest && Improves(g, current, unvisited, cost, n) ==>
          cost'[n] == cost[current] + g[current][n] && path'[n] == path[current] + [n]
        invariant forall n :: n in cost && !(n !in rest && Improves(g, current, unvisited, cost, n)) ==>
          cost'[n] == cost[n]
        invariant forall n :: n in path && !(n !in rest && Improves(g, current, unvisited, cost, n)) ==>
          path'[n] == path[n]
        decreases |rest|
      {
        var neighbor :| neighbor in rest;
        var edgeCost := neighbors[neighbor];
        if neighbor in unvisited {
          if cost'[current] + edgeCost < CostOrMax(cost', neighbor) {
            cost' := cost'[neighbor := cost'[current] + edgeCost];
            path' := path'[neighbor := path'[current] + [neighbor]];
          }
        }
        rest := rest - {neighbor};
      }
    }
  }

  // ---------------------------------------------------------------------------
  // Choice of the next node (PathFinder.swift lines 53-54)

  /** A finite set of recorded nodes has one of least recorded cost. */
  lemma {:induction false} MinimumExists(s: set<Node>, cost: map<Node, UInt32>)
    requires s != {} && s <= cost.Keys
    ensures exists m :: m in s && forall n :: n in s ==> cost[m] <= cost[n]
    decreases |s|
  {
    var x :| x in s;
    if s != {x} {
      MinimumExists(s - {x}, cost);
      var m :| m in s - {x} && forall n :: n in s - {x} ==> cost[m] <= cost[n];
      if cost[x] < cost[m] {
        assert forall n :: n in s ==> cost[x] <= cost[n];
      } else {
        assert forall n :: n in s ==> cost[m] <= cost[n];
      }
    } else {
      assert forall n :: n in s ==> cost[x] <= cost[n];
    }
  }

  /**
    The selection at PathFinder.swift, lines 53-54: the first unvisited node in
    ascending order of recorded cost, or the destination when no unvisited node has
    a recorded cost. Among equal costs any may be chosen.
  */
  method SelectNext(cost: map<Node, UInt32>, unvisited: seq<Node>, destination: Node) returns (next: Node)
    ensures (exists n :: n in cost && n in unvisited) ==>
      next in cost && next in unvisited && forall n :: n in cost && n in unvisited ==> cost[next] <= cost[n]
    ensures (forall n :: n in cost ==> n !in unvisited) ==> next == destination
  {
    var candidates := set n | n in cost && n in unvisited;
    assert forall n :: n in cost && n in unvisited ==> n in candidates;
    if candidates == {} {
      next := destination;
    } else {
      MinimumExists(candidates, cost);
      next :| next in candidates && forall n :: n in candidates ==> cost[next] <= cost[n];
    }
  }

  // ---------------------------------------------------------------------------
  // Proof steps of getShortestPath

  /**
    The crossing argument of Dijkstra's algorithm: a route that leaves the visited
    nodes passes an unvisited node whose recorded cost is no higher than the route's
    cost, unless the route costs at least `UInt32.max`.
  */
  lemma {:induction false} Crossing(g: Graph, start: Node, unvisited: seq<Node>,
                                    cost: map<Node, UInt32>, p: seq<Node>)
    requires IsWalk(g, p) && p[0] == start && start !in unvisited && p[|p| - 1] in unvisited
    requires Settled(g, start, unvisited, cost) && AllRelaxed(g, unvisited, cost)
    ensures PathCost(g, p) >= UINT32_MAX ||
            exists n :: n in unvisited && n in cost && cost[n] <= PathCost(g, p)
    decreases |p|
  {
    var q := p[..|p| - 1];
    assert IsWalk(g, q);
    var y, x := q[|q| - 1], p[|p| - 1];
    assert y in g && x in g[y];
    AppendEdge(g, q, x);
    assert q + [x] == p;
    if y in unvisited {
      Crossing(g, start, unvisited, cost, q);
    } else {
      assert IsRoute(g, q, start, y);
      assert RelaxedFrom(g, y, unvisited, cost);
      if cost[y] + g[y][x] < UINT32_MAX {
        assert x in cost && cost[x] <= PathCost(g, p);
      }
    }
  }

  /** The loop invariant holds when the start node has been taken from the unvisited array. */
  lemma InitialState(g: Graph, start: Node, destination: Node, keys: seq<Node>, unvisited: seq<Node>)
    requires start in g && destination in g && start != destination
    requires Distinct(keys) && (forall n :: n in keys <==> n in g)
    requires unvisited == Without(keys, start)
    ensures SearchInvariant(g, start, destination, unvisited, map[start := 0], map[start := [start]], start)
  {
    var cost: map<Node, UInt32> := map[start := 0];
    var path := map[start := [start]];
    assert IsRoute(g, [start], start, start) && PathCost(g, [start]) == 0;
    assert EntryOk(g, start, unvisited, cost, path, start);
    forall n | n in g && n !in unvisited
      ensures n in cost && Shortest(g, start, n, cost[n])
    {
      assert n == start;
    }
  }

  /** No addition performed while relaxing `current` can exceed `UInt32.max`. */
  lemma RelaxFits(g: Graph, start: Node, unvisited: seq<Node>,
                  cost: map<Node, UInt32>, path: map<Node, seq<Node>>, current: Node)
    requires SumsFit(g, start) && Recorded(g, start, unvisited, cost, path)
    requires current in cost && current !in unvisited
    ensures current in g ==>
      forall n :: n in g[current] && n in unvisited ==> cost[current] + g[current][n] <= UINT32_MAX
  {
    if current in g {
      forall n | n in g[current] && n in unvisited
        ensures cost[current] + g[current][n] <= UINT32_MAX
      {
        assert EntryOk(g, start, unvisited, cost, path, current);
        var p := path[current];
        AppendEdge(g, p, n);
        assert Distinct(p + [n]) by {
          assert forall m :: m in p ==> m !in unvisited;
        }
      }
    }
  }

  /** A recorded route to `current`, extended to an unvisited neighbour `n`. */
  lemma ExtendedEntry(g: Graph, start: Node, unvisited: seq<Node>, p: seq<Node>, current: Node, n: Node)
    requires IsRoute(g, p, start, current) && Distinct(p)
    requires forall m :: m in p && m != current ==> m !in unvisited
    requires current !in unvisited && current in g && n in g[current] && n in unvisited
    ensures IsRoute(g, p + [n], start, n) && Distinct(p + [n])
    ensures PathCost(g, p + [n]) == PathCost(g, p) + g[current][n]
    ensures forall m :: m in p + [n] && m != n ==> m !in unvisited
  {
    AppendEdge(g, p, n);
    assert forall m :: m in p ==> m !in unvisited;
    assert forall m :: m in p + [n] && m != n ==> m in p;
  }

  /** After relaxing `current`, the entry of a node recorded by then is sound. */
  lemma RelaxedEntry(g: Graph, start: Node, unvisited: seq<Node>,
                     cost: map<Node, UInt32>, path: map<Node, seq<Node>>, current: Node,
                     cost': map<Node, UInt32>, path': map<Node, seq<Node>>, n: Node)
    requires Recorded(g, start, unvisited, cost, path)
    requires current in cost && current !in unvisited
    requires RelaxResult(g, current, unvisited, cost, path, cost', path')
    requires n in cost'
    ensures EntryOk(g, start, unvisited, cost', path', n)
  {
    if Improves(g, current, unvisited, cost, n) {
      assert EntryOk(g, start, unvisited, cost, path, current);
      ExtendedEntry(g, start, unvisited, path[current], current, n);
      assert path'[n] == path[current] + [n];
    } else {
      assert EntryOk(g, start, unvisited, cost, path, n);
    }
  }

  /** After relaxing `current` the recorded entries stay sound. */
  lemma RelaxKeepsRecorded(g: Graph, start: Node, unvisited: seq<Node>,
                           cost: map<Node, UInt32>, path: map<Node, seq<Node>>, current: Node,
                           cost': map<Node, UInt32>, path': map<Node, seq<Node>>)
    requires Recorded(g, start, unvisited, cost, path)
    requires current in cost && current !in unvisited
    requires RelaxResult(g, current, unvisited, cost, path, cost', path')
    ensures Recorded(g, start, unvisited, cost', path')
  {
    forall n | n in cost'
      ensures EntryOk(g, start, unvisited, cost', path', n)
    {
      RelaxedEntry(g, start, unvisited, cost, path, current, cost', path', n);
    }
  }

  /** After relaxing `current`, every visited node keeps its cost and is relaxed. */
  lemma RelaxSettles(g: Graph, start: Node, unvisited: seq<Node>,
                     cost: map<Node, UInt32>, path: map<Node, seq<Node>>, current: Node,
                     cost': map<Node, UInt32>, path': map<Node, seq<Node>>)
    requires current in g && current in cost && current in path && current !in unvisited
    requires Settled(g, start, unvisited, cost) && RelaxedExcept(g, unvisited, cost, current)
    requires RelaxResult(g, current, unvisited, cost, path, cost', path')
    requires forall n :: n in cost ==> n in cost' && cost'[n] <= cost[n]
    ensures Settled(g, start, unvisited, cost')
    ensures AllRelaxed(g, unvisited, cost')
  {
    forall d | d in g && d !in unvisited
      ensures RelaxedFrom(g, d, unvisited, cost')
    {
      if d != current {
        assert RelaxedFrom(g, d, unvisited, cost);
      } else {
        forall n | n in g[d] && n in unvisited && cost'[d] + g[d][n] < UINT32_MAX
          ensures n in cost' && cost'[n] <= cost'[d] + g[d][n]
        {
          if !Improves(g, current, unvisited, cost, n) {
            assert n in cost;
          }
        }
      }
    }
  }

  /** A node of least recorded cost among the unvisited ones has a least-cost route. */
  lemma MinimalIsShortest(g: Graph, start: Node, unvisited: seq<Node>, cost: map<Node, UInt32>, next: Node)
    requires start !in unvisited
    requires Settled(g, start, unvisited, cost) && AllRelaxed(g, unvisited, cost)
    requires next in cost && next in unvisited && cost[next] < UINT32_MAX
    requires forall n :: n in cost && n in unvisited ==> cost[next] <= cost[n]
    ensures Shortest(g, start, next, cost[next])
  {
    forall p | IsRoute(g, p, start, next)
      ensures cost[next] <= PathCost(g, p)
    {
      Crossing(g, start, unvisited, cost, p);
    }
  }

  /** Visiting the chosen node `next` re-establishes the loop invariant. */
  lemma SettleNext(g: Graph, start: Node, destination: Node, unvisited: seq<Node>,
                   cost: map<Node, UInt32>, path: map<Node, seq<Node>>, next: Node)
    requires UnvisitedOk(g, start, destination, unvisited)
    requires Recorded(g, start, unvisited, cost, path)
    requires Settled(g, start, unvisited, cost) && AllRelaxed(g, unvisited, cost)
    requires next in cost && next in unvisited && next != destination
    requires forall n :: n in cost && n in unvisited ==> cost[next] <= cost[n]
    ensures SearchInvariant(g, start, destination, Without(unvisited, next), cost, path, next)
  {
    var unvisited' := Without(unvisited, next);
    assert EntryOk(g, start, unvisited, cost, path, next);
    MinimalIsShortest(g, start, unvisited, cost, next);
    forall n | n in cost
      ensures EntryOk(g, start, unvisited', cost, path, n)
    {
      assert EntryOk(g, start, unvisited, cost, path, n);
    }
    forall d | d in g && d !in unvisited' && d != next
      ensures RelaxedFrom(g, d, unvisited', cost)
    {
      assert RelaxedFrom(g, d, unvisited, cost);
    }
  }

  /** The returned value when the destination becomes the current node. */
  lemma FinalState(g: Graph, start: Node, destination: Node, unvisited: seq<Node>,
                   cost: map<Node, UInt32>, path: map<Node, seq<Node>>, next: Node)
    requires UnvisitedOk(g, start, destination, unvisited)
    requires Recorded(g, start, unvisited, cost, path)
    requires Settled(g, start, unvisited, cost) && AllRelaxed(g, unvisited, cost)
    requires (exists n :: n in cost && n in unvisited) ==>
      next in cost && next in unvisited && forall n :: n in cost && n in unvisited ==> cost[next] <= cost[n]
    requires (forall n :: n in cost ==> n !in unvisited) ==> next == destination
    requires (next in cost && cost[next] == UINT32_MAX) || next == destination
    ensures var route := if destination in path then path[destination] else [];
      && (route != [] ==>
            IsRoute(g, route, start, destination) && Distinct(route) &&
            Shortest(g, start, destination, PathCost(g, route)))
      && (route == [] <==> !ReachableBelowMax(g, start, destination))
  {
    if destination in path {
      assert EntryOk(g, start, unvisited, cost, path, destination);
      assert next == destination;
      MinimalIsShortest(g, start, unvisited, cost, destination);
      assert ReachableBelowMax(g, start, destination) by {
        assert IsRoute(g, path[destination], start, destination);
      }
    } else {
      forall p | IsRoute(g, p, start, destination)
        ensures PathCost(g, p) >= UINT32_MAX
      {
        Crossing(g, start, unvisited, cost, p);
      }
    }
  }

  /** A single node is a route to itself of cost zero. */
  lemma RouteToSelf(g: Graph, start: Node)
    ensures IsRoute(g, [start], start, start) && Distinct([start]) && PathCost(g, [start]) == 0
    ensures Shortest(g, start, start, 0) && ReachableBelowMax(g, start, start)
  {
    assert IsRoute(g, [start], start, start);
  }

  // ---------------------------------------------------------------------------
  // getShortestPath(from:to:)

  /**
    `PathFinder.getShortestPath(from:to:)`: the node sequence of a least-cost route
    from `start` to `destination`, or `[]` when either endpoint is not a key of the
    graph or no route costs less than `UInt32.max`.
  */
  method ShortestPath(g: Graph, start: Node, destination: Node) returns (route: seq<Node>)
    requires start in g && destination in g && start != destination ==> SumsFit(g, start)
    ensures start !in g || destination !in g ==> route == []
    ensures start in g && start == destination ==> route == [start]
    ensures route != [] ==>
      IsRoute(g, route, start, destination) && Distinct(route) &&
      Shortest(g, start, destination, PathCost(g, route))
    ensures route == [] <==> start !in g || destination !in g || !ReachableBelowMax(g, start, destination)
  {
    if start !in g || destination !in g {
      return [];
    }
    if start == destination {
      RouteToSelf(g, start);
      return [start];
    }

    var keys := EnumerateKeys(g);
    var cost: map<Node, UInt32> := map[start := 0];
    var path: map<Node, seq<Node>> := map[start := [start]];

    // firstIndex(of: start) always succeeds: start is a key
    var unvisited := Without(keys, start);
    var current := start;
    InitialState(g, start, destination, keys, unvisited);

    while unvisited != []
      invariant SearchInvariant(g, start, destination, unvisited, cost, path, current)
      decreases |unvisited|
    {
      assert EntryOk(g, start, unvisited, cost, path, current) by {
        assert Settled(g, start, unvisited, cost);
      }
      RelaxFits(g, start, unvisited, cost, path, current);
      var cost', path' := Relax(g, current, unvisited, cost, path);
      RelaxKeepsRecorded(g, start, unvisited, cost, path, current, cost', path');
      RelaxSettles(g, start, unvisited, cost, path, current, cost', path');
      cost, path := cost', path';

      current := SelectNext(cost, unvisited, destination);
      if (current in cost && cost[current] == UINT32_MAX) || current == destination {
        FinalState(g, start, destination, unvisited, cost, path, current);
        return if destination in path then path[destination] else [];
      }
      // firstIndex(of: currentNode) always succeeds: the chosen node is unvisited
      SettleNext(g, start, destination, unvisited, cost, path, current);
      unvisited := Without(unvisited, current);
    }
    // unreachable: the destination is never removed from the unvisited array
    assert false;
    return [];
  }
}
