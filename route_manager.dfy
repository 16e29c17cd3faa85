/**
 * RouteManagerImpl: the route store as a class whose `allNodes` field is the
 * adjacency map, updated in place by addConnection and searched by the
 * connected and getRoute queries.
 */
module RouteManagement {
  import opened Wrappers
  import opened JavaString
  import opened RouteGraph
  import opened RouteSearch

  /**
   * getRoute(city1, city2) on a given map: the names are validated, then
   * trimmed and searched.
   */
  function QueryRoute(adj: Adjacency, city1: Option<string>, city2: Option<string>): (r: seq<string>)
    requires GraphInvariant(adj)
    ensures !ValidEndPointNames(city1, city2) ==> r == []
    ensures r != [] ==>
      && city1.Some? && city2.Some? && Trim(city1.value) in adj
      && Last(r) in adj && EqualsIgnoreCase(Last(r), Trim(city2.value))
  {
    if ValidEndPointNames(city1, city2) then Route(adj, Trim(city1.value), Trim(city2.value)) else []
  }

  /**
   * What the queries promise: nothing is found for a null name, for names
   * equal ignoring case and surrounding blanks, or for a name that is not a
   * key; otherwise a route is found exactly when one exists, and it is a
   * shortest one without repeated endpoints.
   */
  lemma QueryRouteCorrect(adj: Adjacency, city1: Option<string>, city2: Option<string>)
    requires GraphInvariant(adj)
    ensures !ValidEndPointNames(city1, city2) ==> QueryRoute(adj, city1, city2) == []
    ensures ValidEndPointNames(city1, city2) ==>
      var a, b, r := Trim(city1.value), Trim(city2.value), QueryRoute(adj, city1, city2);
      && (a !in adj || b !in adj ==> r == [])
      && (r != [] <==> a in adj && b in adj && Reachable(adj, a, b))
      && (r != [] ==> Shortest(adj, a, b, r) && Distinct(r))
  {
    if ValidEndPointNames(city1, city2) {
      RouteCorrect(adj, Trim(city1.value), Trim(city2.value));
    }
  }

  /**
   * Two adjacent endpoints that differ ignoring case: when no other key
   * spells b the same way ignoring case, the route from a to b is the
   * direct one.
   */
  lemma AdjacentRoute(g: Adjacency, a: string, b: string)
    requires GraphInvariant(g) && Adjacent(g, a, b) && !EqualsIgnoreCase(a, b)
    requires forall k :: k in g && EqualsIgnoreCase(k, b) ==> k == b
    ensures Route(g, a, b) == [a, b]
  {
    NeighboursAreKeys(g, a);
    EqualsIgnoreCaseIsEquivalence(b, b, b);
    assert Leads(g, a, b, [a, b]);
    RouteCorrect(g, a, b);
    var r := Route(g, a, b);
    assert |r| <= 2;
    assert |r| != 1;
    assert Adjacent(g, a, r[1]);
    assert r[1] in g;
  }

  /**
   * Right after addConnection(city1, city2) with valid names, the route
   * either way is the direct one, provided the store holds no other
   * spelling (ignoring case) of either name.
   */
  lemma DirectRoute(adj: Adjacency, city1: Option<string>, city2: Option<string>)
    requires GraphInvariant(adj) && ValidEndPointNames(city1, city2)
    requires forall k :: k in adj && EqualsIgnoreCase(k, Trim(city1.value)) ==> k == Trim(city1.value)
    requires forall k :: k in adj && EqualsIgnoreCase(k, Trim(city2.value)) ==> k == Trim(city2.value)
    ensures (ConnectPreservesInvariant(adj, city1, city2);
             QueryRoute(Connect(adj, city1, city2), city1, city2) == [Trim(city1.value), Trim(city2.value)])
    ensures (ConnectPreservesInvariant(adj, city1, city2);
             QueryRoute(Connect(adj, city1, city2), city2, city1) == [Trim(city2.value), Trim(city1.value)])
  {
    var a, b := Trim(city1.value), Trim(city2.value);
    ConnectPreservesInvariant(adj, city1, city2);
    var g := Connect(adj, city1, city2);
    SpellingStaysUnique(adj.Keys, a, b);
    SpellingStaysUnique(adj.Keys, b, a);
    assert g.Keys == adj.Keys + {a, b};
    AdjacentRoute(g, a, b);
    AdjacentRoute(g, b, a);
  }

  /**
   * Right after addConnection(city1, city2) with valid names, a route is
   * found either way, whatever else the store holds.
   */
  lemma AddedPairConnected(adj: Adjacency, city1: Option<string>, city2: Option<string>)
    requires GraphInvariant(adj) && ValidEndPointNames(city1, city2)
    ensures (ConnectPreservesInvariant(adj, city1, city2);
             QueryRoute(Connect(adj, city1, city2), city1, city2) != [])
    ensures (ConnectPreservesInvariant(adj, city1, city2);
             QueryRoute(Connect(adj, city1, city2), city2, city1) != [])
  {
    var a, b := Trim(city1.value), Trim(city2.value);
    ConnectPreservesInvariant(adj, city1, city2);
    var g := Connect(adj, city1, city2);
    assert Adjacent(g, a, b) && Adjacent(g, b, a);
    EqualsIgnoreCaseIsEquivalence(b, a, a);
    AdjacentFound(g, a, b);
    AdjacentFound(g, b, a);
  }

  /** Between two adjacent endpoints that differ ignoring case, a route is found. */
  lemma AdjacentFound(g: Adjacency, a: string, b: string)
    requires GraphInvariant(g) && Adjacent(g, a, b) && !EqualsIgnoreCase(a, b)
    ensures Route(g, a, b) != []
  {
    NeighboursAreKeys(g, a);
    EqualsIgnoreCaseIsEquivalence(b, b, b);
    assert Leads(g, a, b, [a, b]);
    RouteCorrect(g, a, b);
  }

  /** Adding a and a name b that differs from it ignoring case adds no other spelling of a. */
  lemma SpellingStaysUnique(keys: set<string>, a: string, b: string)
    requires !EqualsIgnoreCase(a, b)
    requires forall k :: k in keys && EqualsIgnoreCase(k, a) ==> k == a
    ensures forall k :: k in keys + {a, b} && EqualsIgnoreCase(k, a) ==> k == a
  {
    forall k | k in keys + {a, b} && EqualsIgnoreCase(k, a) ensures k == a {
      EqualsIgnoreCaseIsEquivalence(k, a, b);
    }
  }

  class RouteManagerImpl {
    var allNodes: Adjacency

    ghost predicate Valid()
      reads this
    {
      GraphInvariant(allNodes) && KeysTrimmed(allNodes)
    }

    /** An empty store. */
    constructor ()
      ensures Valid() && allNodes == map[]
    {
      allNodes := map[];
    }

    /** A store filled by addConnection over every edge the iterator yields, in order. */
    constructor FromEdges(edges: seq<Edge>)
      ensures Valid() && allNodes == ConnectAll(map[], edges)
    {
      allNodes := map[];
      new;
      var i := 0;
      while i < |edges|
        invariant 0 <= i <= |edges|
        invariant Valid()
        invariant ConnectAll(allNodes, edges[i..]) == ConnectAll(map[], edges)
      {
        assert edges[i..][1..] == edges[i + 1..];
        AddConnection(Some(edges[i].startNode), Some(edges[i].endNode));
        i := i + 1;
      }
    }

    /** connected: whether getRoute would return a non-empty route. */
    method Connected(city1: Option<string>, city2: Option<string>) returns (connected: bool)
      requires Valid()
      ensures connected == (QueryRoute(allNodes, city1, city2) != [])
      ensures connected <==> (ValidEndPointNames(city1, city2)
                              && Trim(city1.value) in allNodes && Trim(city2.value) in allNodes
                              && Reachable(allNodes, Trim(city1.value), Trim(city2.value)))
    {
      QueryRouteCorrect(allNodes, city1, city2);
      if ValidEndPointNames(city1, city2) {
        var route := FindRoute(Trim(city1.value), Trim(city2.value));
        return |route| > 0;
      }
      return false;
    }

    /** getRoute: the first shortest route found, or an empty one. */
    method GetRoute(city1: Option<string>, city2: Option<string>) returns (route: seq<string>)
      requires Valid()
      ensures route == QueryRoute(allNodes, city1, city2)
      ensures route != [] ==> Shortest(allNodes, Trim(city1.value), Trim(city2.value), route) && Distinct(route)
    {
      QueryRouteCorrect(allNodes, city1, city2);
      if ValidEndPointNames(city1, city2) {
        route := FindRoute(Trim(city1.value), Trim(city2.value));
        return;
      }
      return [];
    }

    /** addConnection: insert the connection in both directions, or ignore invalid names. */
    method AddConnection(city1: Option<string>, city2: Option<string>)
      requires Valid()
      modifies this
      ensures Valid()
      ensures allNodes == Connect(old(allNodes), city1, city2)
      ensures ValidEndPointNames(city1, city2) ==>
        QueryRoute(allNodes, city1, city2) != [] && QueryRoute(allNodes, city2, city1) != []
    {
      ConnectPreservesInvariant(allNodes, city1, city2);
      if ValidEndPointNames(city1, city2) {
        AddedPairConnected(allNodes, city1, city2);
      }
      ConnectKeepsKeysTrimmed(allNodes, city1, city2);
      if ValidEndPointNames(city1, city2) {
        var a := Trim(city1.value);
        var b := Trim(city2.value);
        AddEdge(a, b);
        AddEdge(b, a);
      } else {
        // The source only prints a diagnostic here.
      }
    }

    /** addEdge: one direction of a connection; creates the neighbour set when missing. */
    method AddEdge(nodeOne: string, nodeTwo: string)
      modifies this
      ensures allNodes == WithEdge(old(allNodes), nodeOne, nodeTwo)
    {
      if nodeOne !in allNodes {
        allNodes := allNodes[nodeOne := []];
      }
      var connectedNodes := allNodes[nodeOne];
      if nodeTwo !in connectedNodes {
        allNodes := allNodes[nodeOne := connectedNodes + [nodeTwo]];
      }
    }

    /**
     * findRoute: breadth-first search over a FIFO queue of paths; the first
     * dequeued path that ends at city2 (ignoring case) is returned.
     */
    method FindRoute(city1: string, city2: string) returns (route: seq<string>)
      requires Valid()
      ensures route == Route(allNodes, city1, city2)
      ensures route != [] ==> Shortest(allNodes, city1, city2, route) && Distinct(route)
      ensures route == [] && IsEndPointExist(allNodes, city1, city2) ==> !Reachable(allNodes, city1, city2)
    {
      if IsEndPointExist(allNodes, city1, city2) {
        var nodesToSearch: seq<seq<string>> := [[city1]];
        var nodesVisited: set<string> := {city1};
        while nodesToSearch != []
          invariant nodesVisited <= allNodes.Keys
          invariant QueueInGraph(allNodes, nodesToSearch)
          invariant Search(allNodes, city2, nodesToSearch, nodesVisited) == Route(allNodes, city1, city2)
          decreases |allNodes.Keys - nodesVisited|, |nodesToSearch|
        {
          ghost var queueBefore, visitedBefore := nodesToSearch, nodesVisited;
          SearchUnfold(allNodes, city2, nodesToSearch, nodesVisited);
          var currentPath := nodesToSearch[0];
          nodesToSearch := nodesToSearch[1..];
          var currentNode := Last(currentPath);
          if EqualsIgnoreCase(currentNode, city2) {
            RouteCorrect(allNodes, city1, city2);
            return currentPath;
          }
          nodesToSearch, nodesVisited := EnqueueUnvisited(currentPath, allNodes[currentNode], nodesToSearch, nodesVisited);
        }
      }
      RouteCorrect(allNodes, city1, city2);
      return [];
    }
  
    /**
     * The inner loop of findRoute: for each neighbour in insertion order that
     * is not yet visited, mark it visited and enqueue the current path
     * extended by it.
     */
    static method EnqueueUnvisited(currentPath: seq<string>, allConnectedNodes: seq<string>,
                                   queue: seq<seq<string>>, visited: set<string>)
      returns (nodesToSearch: seq<seq<string>>, nodesVisited: set<string>)
      ensures var added := Unvisited(allConnectedNodes, visited);
        nodesToSearch == queue + Extend(currentPath, added) && nodesVisited == visited + Elems(added)
    {
      nodesToSearch, nodesVisited := queue, visited;
      ghost var added: seq<string> := [];
      var i := 0;
      while i < |allConnectedNodes|
        invariant 0 <= i <= |allConnectedNodes|
        invariant nodesToSearch == queue + Extend(currentPath, added)
        invariant nodesVisited == visited + Elems(added)
        invariant added + Unvisited(allConnectedNodes[i..], nodesVisited) == Unvisited(allConnectedNodes, visited)
      {
        var connectedNode := allConnectedNodes[i];
        UnvisitedStep(allConnectedNodes, i, visited, added, nodesVisited);
        if connectedNode !in nodesVisited {
          nodesToSearch := nodesToSearch + [currentPath + [connectedNode]];
          nodesVisited := nodesVisited + {connectedNode};
          ExtendSnoc(currentPath, added, connectedNode);
          ElemsSnoc(added, connectedNode);
          added := added + [connectedNode];
        }
        i := i + 1;
      }
    }
  }
}
