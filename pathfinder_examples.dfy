/**
  The scenarios of Tests/PathFinderTests/PathFinderTests.swift, derived from the
  contract of `ShortestPath` on the test graph: seven nodes joined by edges that
  have the same cost in both directions.
*/
module PathFinderExamples {
  import opened Sequences
  import opened PathFinder

  const SimpleGraph: Graph := map[
    "A" := map["B" := 2, "C" := 6],
    "B" := map["A" := 2, "D" := 5],
    "C" := map["A" := 6, "D" := 3],
    "D" := map["B" := 5, "C" := 3, "E" := 10, "F" := 13],
    "E" := map["D" := 10, "F" := 6, "G" := 2],
    "F" := map["D" := 13, "E" := 6, "G" := 6],
    "G" := map["E" := 2, "F" := 6]
  ]

  /** testNoConnection adds `"H": [:]`, a node without edges. */
  const IsolatedGraph: Graph := SimpleGraph["H" := map[]]

  const SimpleNodes: set<Node> := {"A", "B", "C", "D", "E", "F", "G"}

  lemma SimpleNodesCount() ensures |SimpleNodes| == 7 && |SimpleNodes + {"H"}| == 8 {}

  /** Every node of the test graph is one of seven, and no edge costs more than 13. */
  lemma SimpleGraphBounded()
    ensures forall u :: u in SimpleGraph ==> u in SimpleNodes
    ensures forall u, v :: u in SimpleGraph && v in SimpleGraph[u] ==> v in SimpleNodes
    ensures forall u, v :: u in SimpleGraph && v in SimpleGraph[u] ==> SimpleGraph[u][v] <= 13
  {
  }

  /** No costs can overflow in the test graph. */
  lemma SimpleGraphFits(start: Node)
    ensures SumsFit(SimpleGraph, start)
  {
    SimpleNodesCount();
    SimpleGraphBounded();
    SumsFitWhenBounded(SimpleGraph, start, SimpleNodes, 13);
  }

  /** Nor with H added. */
  lemma IsolatedGraphFits(start: Node)
    ensures SumsFit(IsolatedGraph, start)
  {
    SimpleNodesCount();
    SimpleGraphBounded();
    SumsFitWhenBounded(IsolatedGraph, start, SimpleNodes + {"H"}, 13);
  }

  /** The least cost from A to each node of the test graph. */
  function Distance(n: Node): nat {
    if n == "B" then 2 else if n == "C" then 6 else if n == "D" then 7 else if n == "E" then 17
    else if n == "F" then 20 else if n == "G" then 19 else 0
  }

  /** The tree of least-cost routes from A. */
  function TreeRoute(n: Node): seq<Node> {
    if n == "B" then ["A", "B"] else if n == "C" then ["A", "C"] else if n == "D" then ["A", "B", "D"]
    else if n == "E" then ["A", "B", "D", "E"] else if n == "F" then ["A", "B", "D", "F"]
    else if n == "G" then ["A", "B", "D", "E", "G"] else ["A"]
  }

  /**
    No edge out of `u` shortens `Distance`, and the edges it does not lengthen are
    those of the tree.
  */
  ghost predicate EdgesFit(u: Node)
    requires u in SimpleGraph
  {
    forall v :: v in SimpleGraph[u] ==>
      && Distance(v) <= Distance(u) + SimpleGraph[u][v]
      && (Distance(v) == Distance(u) + SimpleGraph[u][v] ==> TreeRoute(v) == TreeRoute(u) + [v])
  }

  lemma EdgesFromA() ensures EdgesFit("A") {}
  lemma EdgesFromB() ensures EdgesFit("B") {}
  lemma EdgesFromC() ensures EdgesFit("C") {}
  lemma EdgesFromD() ensures EdgesFit("D") {}
  lemma EdgesFromE() ensures EdgesFit("E") {}
  lemma EdgesFromF() ensures EdgesFit("F") {}
  lemma EdgesFromG() ensures EdgesFit("G") {}

  lemma SimpleGraphKeys() ensures SimpleGraph.Keys == SimpleNodes {}

  /** The edge from `u` to `v` does not shorten `Distance`, and is a tree edge if it keeps it. */
  lemma EdgeFits(u: Node, v: Node)
    requires u in SimpleGraph && v in SimpleGraph[u]
    ensures Distance(v) <= Distance(u) + SimpleGraph[u][v]
    ensures Distance(v) == Distance(u) + SimpleGraph[u][v] ==> TreeRoute(v) == TreeRoute(u) + [v]
  {
    SimpleGraphKeys();
    assert u in SimpleNodes;
    if u == "A" { EdgesFromA(); }
    else if u == "B" { EdgesFromB(); }
    else if u == "C" { EdgesFromC(); }
    else if u == "D" { EdgesFromD(); }
    else if u == "E" { EdgesFromE(); }
    else if u == "F" { EdgesFromF(); }
    else { EdgesFromG(); }
  }

  /** Every walk from A costs at least the distance of its end. */
  lemma {:induction false} DistanceBound(p: seq<Node>)
    requires IsWalk(SimpleGraph, p) && p[0] == "A"
    ensures Distance(p[|p| - 1]) <= PathCost(SimpleGraph, p)
    decreases |p|
  {
    if |p| > 1 {
      var q := p[..|p| - 1];
      assert IsWalk(SimpleGraph, q);
      DistanceBound(q);
      EdgeFits(q[|q| - 1], p[|p| - 1]);
    }
  }

  /** A walk from A costing exactly the distance of its end is the tree route there. */
  lemma {:induction false} TightWalk(p: seq<Node>)
    requires IsWalk(SimpleGraph, p) && p[0] == "A"
    requires PathCost(SimpleGraph, p) == Distance(p[|p| - 1])
    ensures p == TreeRoute(p[|p| - 1])
    decreases |p|
  {
    if |p| > 1 {
      var q := p[..|p| - 1];
      assert IsWalk(SimpleGraph, q);
      var y, x := q[|q| - 1], p[|p| - 1];
      EdgeFits(y, x);
      DistanceBound(q);
      TightWalk(q);
      assert p == q + [x];
    }
  }

  /** The one route from A to G that is no dearer than 19. */
  lemma OnlyCheapRouteToG(route: seq<Node>)
    requires IsRoute(SimpleGraph, route, "A", "G") && PathCost(SimpleGraph, route) <= 19
    ensures route == ["A", "B", "D", "E", "G"]
  {
    DistanceBound(route);
    TightWalk(route);
  }

  /** The edges of the route the test expects. */
  lemma RouteEdges()
    ensures "A" in SimpleGraph && "B" in SimpleGraph["A"] && SimpleGraph["A"]["B"] == 2
    ensures "B" in SimpleGraph && "D" in SimpleGraph["B"] && SimpleGraph["B"]["D"] == 5
    ensures "D" in SimpleGraph && "E" in SimpleGraph["D"] && SimpleGraph["D"]["E"] == 10
    ensures "E" in SimpleGraph && "G" in SimpleGraph["E"] && SimpleGraph["E"]["G"] == 2
  {
  }

  /** The route the test expects from A to G costs 19. */
  lemma ExpectedRoute()
    ensures IsRoute(SimpleGraph, ["A", "B", "D", "E", "G"], "A", "G")
    ensures PathCost(SimpleGraph, ["A", "B", "D", "E", "G"]) == 19
  {
    RouteEdges();
    AppendEdge(SimpleGraph, ["A"], "B");
    assert ["A"] + ["B"] == ["A", "B"];
    AppendEdge(SimpleGraph, ["A", "B"], "D");
    assert ["A", "B"] + ["D"] == ["A", "B", "D"];
    AppendEdge(SimpleGraph, ["A", "B", "D"], "E");
    assert ["A", "B", "D"] + ["E"] == ["A", "B", "D", "E"];
    AppendEdge(SimpleGraph, ["A", "B", "D", "E"], "G");
    assert ["A", "B", "D", "E"] + ["G"] == ["A", "B", "D", "E", "G"];
  }

  /** testUnknownStartOrDestination: "0" is not a node, as the start or as the destination. */
  method UnknownStartOrDestination() returns (fromUnknown: seq<Node>, toUnknown: seq<Node>)
    ensures fromUnknown == [] && toUnknown == []
  {
    fromUnknown := ShortestPath(SimpleGraph, "0", "A");
    toUnknown := ShortestPath(SimpleGraph, "A", "0");
  }

  /** testPathToSameNode */
  method PathToSameNode() returns (route: seq<Node>)
    ensures route == ["A"]
  {
    route := ShortestPath(SimpleGraph, "A", "A");
  }

  /** Two edges at `UInt32.max` each: searching from A to C would overflow. */
  const OverflowGraph: Graph := map["A" := map["B" := UINT32_MAX], "B" := map["C" := UINT32_MAX], "C" := map[]]

  /** The walk A, B, C costs twice `UInt32.max`, so the search's precondition fails from A. */
  lemma OverflowGraphDoesNotFit()
    ensures !SumsFit(OverflowGraph, "A")
  {
    var p := ["A", "B", "C"];
    assert IsWalk(OverflowGraph, p) && Distinct(p);
    assert p[..2] == ["A", "B"] && p[..2][..1] == ["A"];
    assert PathCost(OverflowGraph, p) == 2 * UINT32_MAX;
  }

  /**
    The early returns for an unknown endpoint and for `from == to` add nothing,
    so they need no bound on the graph's costs.
  */
  method EarlyReturnsOnOverflowGraph() returns (unknown: seq<Node>, same: seq<Node>)
    ensures unknown == [] && same == ["A"]
  {
    unknown := ShortestPath(OverflowGraph, "A", "Z");
    same := ShortestPath(OverflowGraph, "A", "A");
  }

  /** testSimpleGraph: the cheapest route from A to G costs 19 and is the only one that does. */
  method SimpleGraphRoute() returns (route: seq<Node>)
    ensures route == ["A", "B", "D", "E", "G"]
  {
    SimpleGraphFits("A");
    ExpectedRoute();
    route := ShortestPath(SimpleGraph, "A", "G");
    OnlyCheapRouteToG(route);
  }

  /** testNoConnection: no edge leads to H. */
  method NoConnection() returns (route: seq<Node>)
    ensures route == []
  {
    IsolatedGraphFits("A");
    assert forall u :: u in IsolatedGraph ==> "H" !in IsolatedGraph[u];
    route := ShortestPath(IsolatedGraph, "A", "H");
  }
}
