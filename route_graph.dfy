/**
 * The route graph kept by RouteManagerImpl: a map from an endpoint (city)
 * name to its neighbours in insertion order, the two private insertion steps
 * (`addEdge`, `addConnection`) as functions on that map, and the invariant
 * every insertion preserves.
 */
module RouteGraph {
  import opened Wrappers
  import opened JavaString

  /** Endpoint name -> neighbouring endpoint names, oldest first, without repeats. */
  type Adjacency = map<string, seq<string>>

  predicate Adjacent(adj: Adjacency, u: string, w: string) {
    u in adj && w in adj[u]
  }

  predicate Distinct(p: seq<string>) {
    forall i, j :: 0 <= i < j < |p| ==> p[i] != p[j]
  }

  function Last(p: seq<string>): string
    requires p != []
  {
    p[|p| - 1]
  }

  /** A non-empty walk whose consecutive endpoints are adjacent. */
  predicate IsPath(adj: Adjacency, p: seq<string>) {
    p != [] && forall i :: 0 <= i < |p| - 1 ==> Adjacent(adj, p[i], p[i + 1])
  }

  /**
   * A path from src (compared exactly, as the map keys are) to an endpoint
   * that equals dst ignoring case (as the destination test of the search does).
   */
  predicate Leads(adj: Adjacency, src: string, dst: string, p: seq<string>) {
    IsPath(adj, p) && p[0] == src && EqualsIgnoreCase(Last(p), dst)
  }

  ghost predicate Reachable(adj: Adjacency, src: string, dst: string) {
    exists p :: Leads(adj, src, dst, p)
  }

  /** r leads from src to dst and no path from src to dst has fewer hops. */
  ghost predicate Shortest(adj: Adjacency, src: string, dst: string, r: seq<string>) {
    Leads(adj, src, dst, r) && forall p :: Leads(adj, src, dst, p) ==> |r| <= |p|
  }

  /**
   * A set of endpoints that holds src, is closed under adjacency and holds
   * nothing equal to dst ignoring case: no path from src reaches dst.
   */
  lemma ClosedSetBlocksRoutes(adj: Adjacency, src: string, dst: string, s: set<string>)
    requires src in s
    requires forall u, w :: u in s && Adjacent(adj, u, w) ==> w in s
    requires forall u :: u in s ==> !EqualsIgnoreCase(u, dst)
    ensures !Reachable(adj, src, dst)
  {
    forall p | IsPath(adj, p) && p[0] == src ensures !EqualsIgnoreCase(Last(p), dst) {
      PathStaysIn(adj, p, s, |p| - 1);
    }
  }

  /** Every endpoint of a path that starts in an adjacency-closed set lies in it. */
  lemma {:induction false} PathStaysIn(adj: Adjacency, p: seq<string>, s: set<string>, i: nat)
    requires IsPath(adj, p) && p[0] in s && i < |p|
    requires forall u, w :: u in s && Adjacent(adj, u, w) ==> w in s
    ensures p[i] in s
  {
    if i > 0 {
      PathStaysIn(adj, p, s, i - 1);
      assert Adjacent(adj, p[i - 1], p[i]);
    }
  }

  /**
   * What every insertion keeps true of the map: every neighbour is itself
   * a key, the relation is symmetric, no endpoint is its own neighbour (not
   * even up to case), and every neighbour set is non-empty and
   * duplicate-free. (That keys are trimmed is kept separately, by
   * KeysTrimmed.)
   */
  ghost predicate GraphInvariant(adj: Adjacency) {
    && (forall u, w :: Adjacent(adj, u, w) ==> Adjacent(adj, w, u) && !EqualsIgnoreCase(u, w))
    && WellFormedSets(adj)
  }

  /** So the neighbour lookup of the search never misses: every neighbour is a key. */
  lemma NeighboursAreKeys(adj: Adjacency, u: string)
    requires GraphInvariant(adj) && u in adj
    ensures forall w :: w in adj[u] ==> w in adj
  {
    forall w | w in adj[u] ensures w in adj {
      assert Adjacent(adj, u, w);
    }
  }

  /**
   * addEdge(nodeOne, nodeTwo): create nodeOne's neighbour set if it is
   * missing, then add nodeTwo to it unless it is already there.
   */
  function WithEdge(adj: Adjacency, from: string, to: string): (r: Adjacency)
    ensures r.Keys == adj.Keys + {from}
    ensures forall x, y :: Adjacent(r, x, y) <==> Adjacent(adj, x, y) || (x == from && y == to)
    ensures forall k :: k in adj ==> adj[k] <= r[k] && |r[k]| <= |adj[k]| + 1
    ensures forall k :: k in adj && k != from ==> r[k] == adj[k]
    ensures from !in adj ==> r[from] == [to]
    ensures forall k :: k in adj && Distinct(adj[k]) ==> Distinct(r[k])
  {
    var nbrs := if from in adj then adj[from] else [];
    adj[from := if to in nbrs then nbrs else nbrs + [to]]
  }

  /**
   * verifyEndPointNameValidity: both names are non-null and their trimmed
   * forms differ ignoring case.
   */
  predicate ValidEndPointNames(source: Option<string>, destination: Option<string>): (r: bool)
    ensures source.None? || destination.None? ==> !r
    ensures r ==> Trim(source.value) != Trim(destination.value)
  {
    source.Some? && destination.Some? && !EqualsIgnoreCase(Trim(source.value), Trim(destination.value))
  }

  /**
   * addConnection(city1, city2): when the names are valid, add each trimmed
   * name to the other's neighbours; otherwise leave the map alone (the
   * source only prints a diagnostic).
   */
  function Connect(adj: Adjacency, city1: Option<string>, city2: Option<string>): (r: Adjacency)
    ensures !ValidEndPointNames(city1, city2) ==> r == adj
    ensures ValidEndPointNames(city1, city2) ==>
      var a, b := Trim(city1.value), Trim(city2.value);
      && r.Keys == adj.Keys + {a, b}
      && Adjacent(r, a, b) && Adjacent(r, b, a)
      && (forall x, y :: Adjacent(r, x, y) <==> Adjacent(adj, x, y) || (x == a && y == b) || (x == b && y == a))
      && (forall k :: k in adj ==> adj[k] <= r[k] && |r[k]| <= |adj[k]| + 1)
      && (forall k :: k in adj && k != a && k != b ==> r[k] == adj[k])
  {
    if ValidEndPointNames(city1, city2) then
      var a, b := Trim(city1.value), Trim(city2.value);
      WithEdge(WithEdge(adj, a, b), b, a)
    else
      adj
  }

  /** The invariant holds of every map built by addConnection from the empty one. */
  lemma ConnectPreservesInvariant(adj: Adjacency, city1: Option<string>, city2: Option<string>)
    requires GraphInvariant(adj)
    ensures GraphInvariant(Connect(adj, city1, city2))
  {
    if ValidEndPointNames(city1, city2) {
      var a, b := Trim(city1.value), Trim(city2.value);
      var r := Connect(adj, city1, city2);
      forall u, w | Adjacent(r, u, w) ensures Adjacent(r, w, u) && !EqualsIgnoreCase(u, w) {
        EqualsIgnoreCaseIsEquivalence(a, b, u);
      }
      WithEdgeKeepsSetsWellFormed(adj, a, b);
      WithEdgeKeepsSetsWellFormed(WithEdge(adj, a, b), b, a);
    }
  }

  /** Neighbour sets non-empty and duplicate-free. */
  ghost predicate WellFormedSets(adj: Adjacency) {
    forall u :: u in adj ==> adj[u] != [] && Distinct(adj[u])
  }

  /** One addEdge keeps neighbour sets non-empty and duplicate-free. */
  lemma WithEdgeKeepsSetsWellFormed(adj: Adjacency, from: string, to: string)
    requires WellFormedSets(adj)
    ensures WellFormedSets(WithEdge(adj, from, to))
  {
    var r := WithEdge(adj, from, to);
    forall u | u in r ensures r[u] != [] && Distinct(r[u]) {
      if u in adj {
        assert adj[u] <= r[u];
      }
    }
  }

  /** Every key is stored as trimmed, since addConnection trims both names before adding them. */
  ghost predicate KeysTrimmed(adj: Adjacency) {
    forall u :: u in adj ==> IsTrimmed(u)
  }

  lemma ConnectKeepsKeysTrimmed(adj: Adjacency, city1: Option<string>, city2: Option<string>)
    requires KeysTrimmed(adj)
    ensures KeysTrimmed(Connect(adj, city1, city2))
  {
    if ValidEndPointNames(city1, city2) {
      TrimIdempotent(city1.value);
      TrimIdempotent(city2.value);
    }
  }

  /** Adding a connection that is already present changes nothing. */
  lemma ConnectIdempotent(adj: Adjacency, city1: Option<string>, city2: Option<string>)
    ensures Connect(Connect(adj, city1, city2), city1, city2) == Connect(adj, city1, city2)
  {
    if ValidEndPointNames(city1, city2) {
      var a, b := Trim(city1.value), Trim(city2.value);
      var r := Connect(adj, city1, city2);
      WithEdgePresent(r, a, b);
      WithEdgePresent(r, b, a);
    }
  }

  /** addEdge of an edge already present leaves the map as it is. */
  lemma WithEdgePresent(adj: Adjacency, from: string, to: string)
    requires Adjacent(adj, from, to)
    ensures WithEdge(adj, from, to) == adj
  {
    assert adj[from := adj[from]] == adj;
  }

  /**
   * RouteManagerImpl.Edge: an edge read by a loader, both names trimmed by
   * its constructor.
   */
  datatype Edge = Edge(startNode: string, endNode: string)

  function NewEdge(nodeOne: string, nodeTwo: string): (e: Edge)
    ensures IsTrimmed(e.startNode) && IsTrimmed(e.endNode)
  {
    TrimIdempotent(nodeOne);
    TrimIdempotent(nodeTwo);
    Edge(Trim(nodeOne), Trim(nodeTwo))
  }

  /** Trimming in the Edge constructor and again in addConnection has the effect of trimming once. */
  lemma ConnectEdgeSameAsRawNames(adj: Adjacency, nodeOne: string, nodeTwo: string)
    ensures var e := NewEdge(nodeOne, nodeTwo);
      Connect(adj, Some(e.startNode), Some(e.endNode)) == Connect(adj, Some(nodeOne), Some(nodeTwo))
  {
    TrimIdempotent(nodeOne);
    TrimIdempotent(nodeTwo);
  }

  /** The edge e, read by the iterator, connects x to y. */
  predicate EdgeJoins(e: Edge, x: string, y: string) {
    && ValidEndPointNames(Some(e.startNode), Some(e.endNode))
    && ((x == Trim(e.startNode) && y == Trim(e.endNode)) || (x == Trim(e.endNode) && y == Trim(e.startNode)))
  }

  /** Some edge of the sequence connects x to y. */
  predicate SomeEdgeJoins(edges: seq<Edge>, x: string, y: string) {
    edges != [] && (EdgeJoins(edges[0], x, y) || SomeEdgeJoins(edges[1..], x, y))
  }

  /**
   * The iterator constructor: addConnection applied to each edge in the
   * order the iterator yields them. The result holds exactly the edges
   * already present plus every valid edge read, and keeps the invariant.
   */
  function ConnectAll(adj: Adjacency, edges: seq<Edge>): (r: Adjacency)
    requires GraphInvariant(adj)
    ensures GraphInvariant(r)
    ensures forall x, y :: Adjacent(r, x, y) <==> Adjacent(adj, x, y) || SomeEdgeJoins(edges, x, y)
    decreases |edges|
  {
    if edges == [] then adj
    else
      var next := Connect(adj, Some(edges[0].startNode), Some(edges[0].endNode));
      ConnectPreservesInvariant(adj, Some(edges[0].startNode), Some(edges[0].endNode));
      ConnectAll(next, edges[1..])
  }
}
