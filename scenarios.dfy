/**
 * Concrete route stores and the answers the queries give on them: a chain
 * Atlanta - Charlotte - Richmond - Louisville, the same chain next to a
 * separate Chicago - St. Louis pair, the chain with the detour Charlotte -
 * Pittsburgh - New York - Boston grown by Louisville - Boston (two routes
 * of equal length to Boston), a four-cycle whose route back is not the
 * route there reversed, and a store holding two spellings of one name.
 */
module Scenarios {
  import opened Wrappers
  import opened JavaString
  import opened RouteGraph
  import opened RouteSearch
  import opened RouteManagement

  /**
   * The chain, as three addConnection calls build it from the empty store:
   * every endpoint has its neighbours in insertion order.
   */
  function Chain(): (g: Adjacency)
    ensures GraphInvariant(g)
    ensures g == ChainMap()
  {
    ChainContents();
    Connect(Connect(Connect(map[], Some("Atlanta"), Some("Charlotte")),
                    Some("Charlotte"), Some("Richmond")),
            Some("Richmond"), Some("Louisville"))
  }

  function ChainMap(): Adjacency {
    map["Atlanta" := ["Charlotte"], "Charlotte" := ["Atlanta", "Richmond"],
        "Richmond" := ["Charlotte", "Louisville"], "Louisville" := ["Richmond"]]
  }

  /** A name without blanks at its ends is its own trim. */
  lemma TrimmedName(s: string)
    requires s != [] && !IsBlank(s[0]) && !IsBlank(s[|s| - 1])
    ensures Trim(s) == s
  {
    TrimIsBlankFreeInfix(s, 0, |s|);
  }

  /** addConnection of two names that are both new to the store. */
  lemma ConnectNew(adj: Adjacency, a: string, b: string)
    requires Trim(a) == a && Trim(b) == b && |a| != |b|
    requires a !in adj && b !in adj
    ensures Connect(adj, Some(a), Some(b)) == adj[a := [b]][b := [a]]
  {
    assert ValidEndPointNames(Some(a), Some(b));
  }

  /** addConnection of a stored name a and a new name b: b is appended to a's neighbours. */
  lemma ConnectGrow(adj: Adjacency, a: string, b: string)
    requires Trim(a) == a && Trim(b) == b && |a| != |b|
    requires a in adj && b !in adj && b !in adj[a]
    ensures Connect(adj, Some(a), Some(b)) == adj[a := adj[a] + [b]][b := [a]]
  {
    assert ValidEndPointNames(Some(a), Some(b));
  }

  /** addConnection of two stored names not yet adjacent: each is appended to the other's neighbours. */
  lemma ConnectClose(adj: Adjacency, a: string, b: string)
    requires Trim(a) == a && Trim(b) == b && |a| != |b|
    requires a in adj && b in adj && b !in adj[a] && a !in adj[b]
    ensures Connect(adj, Some(a), Some(b)) == adj[a := adj[a] + [b]][b := adj[b] + [a]]
  {
    assert ValidEndPointNames(Some(a), Some(b));
  }

  function Chain1Map(): Adjacency {
    map["Atlanta" := ["Charlotte"], "Charlotte" := ["Atlanta"]]
  }

  function Chain2Map(): Adjacency {
    map["Atlanta" := ["Charlotte"], "Charlotte" := ["Atlanta", "Richmond"], "Richmond" := ["Charlotte"]]
  }

  lemma ChainStep1()
    ensures Connect(map[], Some("Atlanta"), Some("Charlotte")) == Chain1Map()
  {
    TrimmedName("Atlanta");
    TrimmedName("Charlotte");
    ConnectNew(map[], "Atlanta", "Charlotte");
    assert map[]["Atlanta" := ["Charlotte"]]["Charlotte" := ["Atlanta"]] == Chain1Map();
  }

  lemma ChainStep2()
    ensures Connect(Chain1Map(), Some("Charlotte"), Some("Richmond")) == Chain2Map()
  {
    TrimmedName("Charlotte");
    TrimmedName("Richmond");
    ChainLookup2();
    ConnectGrow(Chain1Map(), "Charlotte", "Richmond");
    ChainUpdate2();
  }

  lemma ChainLookup2()
    ensures "Charlotte" in Chain1Map() && "Richmond" !in Chain1Map() && "Richmond" !in Chain1Map()["Charlotte"]
  {
    assert Chain1Map()["Charlotte"] == ["Atlanta"];
  }

  lemma ChainUpdate2()
    ensures "Charlotte" in Chain1Map()
    ensures Chain1Map()["Charlotte" := Chain1Map()["Charlotte"] + ["Richmond"]]["Richmond" := ["Charlotte"]] == Chain2Map()
  {
    var g := Chain1Map();
    assert g["Charlotte"] + ["Richmond"] == ["Atlanta", "Richmond"];
  }

  lemma ChainStep3()
    ensures Connect(Chain2Map(), Some("Richmond"), Some("Louisville")) == ChainMap()
  {
    TrimmedName("Richmond");
    TrimmedName("Louisville");
    ChainLookup3();
    ConnectGrow(Chain2Map(), "Richmond", "Louisville");
    ChainUpdate3();
  }

  lemma ChainLookup3()
    ensures "Richmond" in Chain2Map() && "Louisville" !in Chain2Map() && "Louisville" !in Chain2Map()["Richmond"]
  {
    assert Chain2Map()["Richmond"] == ["Charlotte"];
  }

  lemma ChainUpdate3()
    ensures "Richmond" in Chain2Map()
    ensures Chain2Map()["Richmond" := Chain2Map()["Richmond"] + ["Louisville"]]["Louisville" := ["Richmond"]] == ChainMap()
  {
    var g := Chain2Map();
    assert g["Richmond"] + ["Louisville"] == ["Charlotte", "Louisville"];
  }

  /** The map the three connections produce. */
  lemma ChainContents()
    ensures var g := Connect(Connect(Connect(map[], Some("Atlanta"), Some("Charlotte")),
                                     Some("Charlotte"), Some("Richmond")),
                             Some("Richmond"), Some("Louisville"));
      GraphInvariant(g) && g == ChainMap()
  {
    ChainStep1();
    ChainStep2();
    ChainStep3();
    ConnectPreservesInvariant(map[], Some("Atlanta"), Some("Charlotte"));
    ConnectPreservesInvariant(Chain1Map(), Some("Charlotte"), Some("Richmond"));
    ConnectPreservesInvariant(Chain2Map(), Some("Richmond"), Some("Louisville"));
  }

  /**
   * One round of the search from a queue holding the single path `path`
   * that does not end at dst, when exactly one neighbour w of its last
   * endpoint is unvisited: the queue becomes path extended by w.
   */
  lemma HopTo(adj: Adjacency, dst: string, path: seq<string>, visited: set<string>, w: string,
               next: seq<string>, visited': set<string>)
    requires GraphInvariant(adj) && visited <= adj.Keys && path != [] && Last(path) in adj
    requires !EqualsIgnoreCase(Last(path), dst)
    requires Unvisited(adj[Last(path)], visited) == [w]
    requires next == path + [w] && visited' == visited + {w}
    ensures next != [] && Last(next) in adj && visited' <= adj.Keys
    ensures Search(adj, dst, [path], visited) == Search(adj, dst, [next], visited')
  {
    SearchUnfold(adj, dst, [path], visited);
    assert [path][1..] + Extend(path, [w]) == [path + [w]];
    assert Elems([w]) == {w};
  }

  /** The search stops at the first path that ends at dst. */
  lemma Arrive(adj: Adjacency, dst: string, path: seq<string>, visited: set<string>)
    requires GraphInvariant(adj) && visited <= adj.Keys && path != [] && Last(path) in adj
    requires EqualsIgnoreCase(Last(path), dst)
    ensures Search(adj, dst, [path], visited) == path
  {
  }

  /** The search stops when the path at the front of the queue ends exactly at dst. */
  lemma ArriveAt(adj: Adjacency, dst: string, queue: seq<seq<string>>, visited: set<string>)
    requires GraphInvariant(adj) && visited <= adj.Keys && QueueInGraph(adj, queue) && queue != []
    requires Last(queue[0]) == dst
    ensures Search(adj, dst, queue, visited) == queue[0]
  {
  }

  /** A query between two stored, trimmed names of different lengths starts the search at the first. */
  lemma QueryStarts(adj: Adjacency, a: string, b: string)
    requires GraphInvariant(adj) && Trim(a) == a && Trim(b) == b && |a| != |b| && a in adj && b in adj
    ensures QueryRoute(adj, Some(a), Some(b)) == Search(adj, b, [[a]], {a})
  {
    assert ValidEndPointNames(Some(a), Some(b));
    assert IsEndPointExist(adj, a, b);
  }

  /** The neighbours the search enqueues at each endpoint of the chain, walking it from Atlanta. */
  lemma ChainForward()
    ensures Unvisited(["Charlotte"], {"Atlanta"}) == ["Charlotte"]
    ensures Unvisited(["Atlanta", "Richmond"], {"Atlanta", "Charlotte"}) == ["Richmond"]
    ensures Unvisited(["Charlotte", "Louisville"], {"Atlanta", "Charlotte", "Richmond"}) == ["Louisville"]
  {
  }

  /** The same, walking the chain from Louisville. */
  lemma ChainBackward()
    ensures Unvisited(["Richmond"], {"Louisville"}) == ["Richmond"]
    ensures Unvisited(["Charlotte", "Louisville"], {"Louisville", "Richmond"}) == ["Charlotte"]
    ensures Unvisited(["Atlanta", "Richmond"], {"Louisville", "Richmond", "Charlotte"}) == ["Atlanta"]
  {
  }

  /** The chain as the search sees it: the neighbour lists of Atlanta and Charlotte. */
  predicate ChainStart(g: Adjacency) {
    && "Atlanta" in g && g["Atlanta"] == ["Charlotte"]
    && "Charlotte" in g && g["Charlotte"] == ["Atlanta", "Richmond"]
    && "Richmond" in g
  }

  /** The neighbour lists of Richmond and Louisville. */
  predicate ChainEnd(g: Adjacency) {
    && "Richmond" in g && g["Richmond"] == ["Charlotte", "Louisville"]
    && "Louisville" in g
  }

  /** getRoute("Atlanta", "Louisville") on the chain follows it. */
  lemma ChainRoute()
    ensures QueryRoute(Chain(), Some("Atlanta"), Some("Louisville"))
         == ["Atlanta", "Charlotte", "Richmond", "Louisville"]
  {
    ChainShape();
    ChainRouteOn(Chain());
  }

  lemma ChainShape()
    ensures ChainStart(ChainMap()) && ChainEnd(ChainMap())
  {
  }

  lemma ChainRouteOn(g: Adjacency)
    requires GraphInvariant(g) && ChainStart(g) && ChainEnd(g)
    ensures QueryRoute(g, Some("Atlanta"), Some("Louisville"))
         == ["Atlanta", "Charlotte", "Richmond", "Louisville"]
  {
    TrimmedName("Atlanta");
    TrimmedName("Louisville");
    QueryStarts(g, "Atlanta", "Louisville");
    ForwardWalk(g, "Louisville");
    ArriveAt(g, "Louisville", [["Atlanta", "Charlotte", "Richmond", "Louisville"]], {"Atlanta", "Charlotte", "Richmond", "Louisville"});
  }

  /** From Atlanta the search walks the chain to Louisville, unless it stops earlier at dst. */
  lemma ForwardWalk(g: Adjacency, dst: string)
    requires GraphInvariant(g) && ChainStart(g) && ChainEnd(g)
    requires !EqualsIgnoreCase("Atlanta", dst) && !EqualsIgnoreCase("Charlotte", dst) && !EqualsIgnoreCase("Richmond", dst)
    ensures Search(g, dst, [["Atlanta"]], {"Atlanta"})
         == Search(g, dst, [["Atlanta", "Charlotte", "Richmond", "Louisville"]], {"Atlanta", "Charlotte", "Richmond", "Louisville"})
  {
    ForwardFirstHops(g, dst);
    ForwardLastHop(g, dst);
  }

  /** From Atlanta the search walks to Charlotte and on to Richmond. */
  lemma ForwardFirstHops(g: Adjacency, dst: string)
    requires GraphInvariant(g) && ChainStart(g)
    requires !EqualsIgnoreCase("Atlanta", dst) && !EqualsIgnoreCase("Charlotte", dst)
    ensures Search(g, dst, [["Atlanta"]], {"Atlanta"})
         == Search(g, dst, [["Atlanta", "Charlotte", "Richmond"]], {"Atlanta", "Charlotte", "Richmond"})
  {
    ChainForward();
    HopTo(g, dst, ["Atlanta"], {"Atlanta"}, "Charlotte",
          ["Atlanta", "Charlotte"], {"Atlanta", "Charlotte"});
    HopTo(g, dst, ["Atlanta", "Charlotte"], {"Atlanta", "Charlotte"}, "Richmond",
          ["Atlanta", "Charlotte", "Richmond"], {"Atlanta", "Charlotte", "Richmond"});
  }

  /** From Richmond the search walks on to Louisville. */
  lemma ForwardLastHop(g: Adjacency, dst: string)
    requires GraphInvariant(g) && ChainStart(g) && ChainEnd(g)
    requires !EqualsIgnoreCase("Richmond", dst)
    ensures Search(g, dst, [["Atlanta", "Charlotte", "Richmond"]], {"Atlanta", "Charlotte", "Richmond"})
         == Search(g, dst, [["Atlanta", "Charlotte", "Richmond", "Louisville"]], {"Atlanta", "Charlotte", "Richmond", "Louisville"})
  {
    ChainForward();
    HopTo(g, dst, ["Atlanta", "Charlotte", "Richmond"], {"Atlanta", "Charlotte", "Richmond"}, "Louisville",
          ["Atlanta", "Charlotte", "Richmond", "Louisville"], {"Atlanta", "Charlotte", "Richmond", "Louisville"});
  }

  /** getRoute("Louisville", "Atlanta") on the chain follows it back. */
  lemma ChainReverseRoute()
    ensures QueryRoute(Chain(), Some("Louisville"), Some("Atlanta"))
         == ["Louisville", "Richmond", "Charlotte", "Atlanta"]
  {
    ChainReverseRouteOn(Chain());
  }

  lemma ChainReverseRouteOn(g: Adjacency)
    requires GraphInvariant(g) && g == ChainMap()
    ensures QueryRoute(g, Some("Louisville"), Some("Atlanta"))
         == ["Louisville", "Richmond", "Charlotte", "Atlanta"]
  {
    TrimmedName("Atlanta");
    TrimmedName("Louisville");
    QueryStarts(g, "Louisville", "Atlanta");
    BackwardFirstHops(g);
    BackwardLastHop(g);
    ArriveAt(g, "Atlanta", [["Louisville", "Richmond", "Charlotte", "Atlanta"]], {"Louisville", "Richmond", "Charlotte", "Atlanta"});
  }

  /** From Louisville the search walks to Richmond and on to Charlotte. */
  lemma BackwardFirstHops(g: Adjacency)
    requires GraphInvariant(g) && g == ChainMap()
    ensures Search(g, "Atlanta", [["Louisville"]], {"Louisville"})
         == Search(g, "Atlanta", [["Louisville", "Richmond", "Charlotte"]], {"Louisville", "Richmond", "Charlotte"})
  {
    ChainBackward();
    HopTo(g, "Atlanta", ["Louisville"], {"Louisville"}, "Richmond",
          ["Louisville", "Richmond"], {"Louisville", "Richmond"});
    HopTo(g, "Atlanta", ["Louisville", "Richmond"], {"Louisville", "Richmond"}, "Charlotte",
          ["Louisville", "Richmond", "Charlotte"], {"Louisville", "Richmond", "Charlotte"});
  }

  /** From Charlotte the search walks on to Atlanta. */
  lemma BackwardLastHop(g: Adjacency)
    requires GraphInvariant(g) && g == ChainMap()
    ensures Search(g, "Atlanta", [["Louisville", "Richmond", "Charlotte"]], {"Louisville", "Richmond", "Charlotte"})
         == Search(g, "Atlanta", [["Louisville", "Richmond", "Charlotte", "Atlanta"]], {"Louisville", "Richmond", "Charlotte", "Atlanta"})
  {
    ChainBackward();
    HopTo(g, "Atlanta", ["Louisville", "Richmond", "Charlotte"], {"Louisville", "Richmond", "Charlotte"}, "Atlanta",
          ["Louisville", "Richmond", "Charlotte", "Atlanta"], {"Louisville", "Richmond", "Charlotte", "Atlanta"});
  }

  // ---------------------------------------------------------------------
  // The chain with the detour Charlotte - Pittsburgh - New York - Boston of
  // the test's route list, grown by addConnection("Louisville", "Boston").

  /** addConnection of a new name a and a stored name b: a is appended to b's neighbours. */
  lemma ConnectJoin(adj: Adjacency, a: string, b: string)
    requires Trim(a) == a && Trim(b) == b && |a| != |b|
    requires a !in adj && b in adj && a !in adj[b]
    ensures Connect(adj, Some(a), Some(b)) == adj[a := [b]][b := adj[b] + [a]]
  {
    assert ValidEndPointNames(Some(a), Some(b));
  }

  function East1Map(): Adjacency {
    map["Atlanta" := ["Charlotte"], "Charlotte" := ["Atlanta", "Richmond"],
        "Richmond" := ["Charlotte", "Louisville"], "Louisville" := ["Richmond"],
        "New York" := ["Boston"], "Boston" := ["New York"]]
  }

  function East2Map(): Adjacency {
    map["Atlanta" := ["Charlotte"], "Charlotte" := ["Atlanta", "Richmond"],
        "Richmond" := ["Charlotte", "Louisville"], "Louisville" := ["Richmond"],
        "New York" := ["Boston", "Pittsburgh"], "Boston" := ["New York"], "Pittsburgh" := ["New York"]]
  }

  function EasternMap(): Adjacency {
    map["Atlanta" := ["Charlotte"], "Charlotte" := ["Atlanta", "Richmond", "Pittsburgh"],
        "Richmond" := ["Charlotte", "Louisville"], "Louisville" := ["Richmond"],
        "New York" := ["Boston", "Pittsburgh"], "Boston" := ["New York"],
        "Pittsburgh" := ["New York", "Charlotte"]]
  }

  function GrownMap(): Adjacency {
    map["Atlanta" := ["Charlotte"], "Charlotte" := ["Atlanta", "Richmond", "Pittsburgh"],
        "Richmond" := ["Charlotte", "Louisville"], "Louisville" := ["Richmond", "Boston"],
        "New York" := ["Boston", "Pittsburgh"], "Boston" := ["New York", "Louisville"],
        "Pittsburgh" := ["New York", "Charlotte"]]
  }

  /**
   * The chain, then New York - Boston, Pittsburgh - New York and
   * Pittsburgh - Charlotte, in the order of the test's route list.
   */
  function Eastern(): (g: Adjacency)
    ensures GraphInvariant(g)
    ensures g == EasternMap()
  {
    var c := Chain();
    EastStep1();
    EastStep2();
    EastStep3();
    ConnectPreservesInvariant(c, Some("New York"), Some("Boston"));
    ConnectPreservesInvariant(East1Map(), Some("Pittsburgh"), Some("New York"));
    ConnectPreservesInvariant(East2Map(), Some("Pittsburgh"), Some("Charlotte"));
    Connect(Connect(Connect(c, Some("New York"), Some("Boston")),
                    Some("Pittsburgh"), Some("New York")),
            Some("Pittsburgh"), Some("Charlotte"))
  }

  lemma EastStep1()
    ensures Connect(ChainMap(), Some("New York"), Some("Boston")) == East1Map()
  {
    TrimmedName("New York");
    TrimmedName("Boston");
    EastLookup1();
    ConnectNew(ChainMap(), "New York", "Boston");
    EastUpdate1();
  }

  lemma EastLookup1()
    ensures "New York" !in ChainMap() && "Boston" !in ChainMap() && "Pittsburgh" !in ChainMap()
  {
  }

  lemma EastUpdate1()
    ensures var g := ChainMap()["New York" := ["Boston"]]; g["Boston" := ["New York"]] == East1Map()
  {
  }

  lemma EastStep2()
    ensures Connect(East1Map(), Some("Pittsburgh"), Some("New York")) == East2Map()
  {
    TrimmedName("Pittsburgh");
    TrimmedName("New York");
    EastLookup2();
    ConnectJoin(East1Map(), "Pittsburgh", "New York");
    EastUpdate2();
  }

  lemma EastLookup2()
    ensures "Pittsburgh" !in East1Map() && "New York" in East1Map() && "Pittsburgh" !in East1Map()["New York"]
  {
    assert East1Map()["New York"] == ["Boston"];
  }

  lemma EastUpdate2()
    ensures "New York" in East1Map()
    ensures East1Map()["Pittsburgh" := ["New York"]]["New York" := East1Map()["New York"] + ["Pittsburgh"]] == East2Map()
  {
    var g := East1Map();
    assert g["New York"] + ["Pittsburgh"] == ["Boston", "Pittsburgh"];
  }

  lemma EastStep3()
    ensures Connect(East2Map(), Some("Pittsburgh"), Some("Charlotte")) == EasternMap()
  {
    TrimmedName("Pittsburgh");
    TrimmedName("Charlotte");
    EastLookup3();
    ConnectClose(East2Map(), "Pittsburgh", "Charlotte");
    EastUpdate3();
  }

  lemma EastLookup3()
    ensures "Pittsburgh" in East2Map() && "Charlotte" in East2Map()
    ensures "Charlotte" !in East2Map()["Pittsburgh"] && "Pittsburgh" !in East2Map()["Charlotte"]
  {
    assert East2Map()["Pittsburgh"] == ["New York"];
    assert East2Map()["Charlotte"] == ["Atlanta", "Richmond"];
  }

  lemma EastUpdate3()
    ensures "Pittsburgh" in East2Map() && "Charlotte" in East2Map()
    ensures East2Map()["Pittsburgh" := East2Map()["Pittsburgh"] + ["Charlotte"]]
                      ["Charlotte" := East2Map()["Charlotte"] + ["Pittsburgh"]]
         == EasternMap()
  {
    var g := East2Map();
    assert g["Pittsburgh"] + ["Charlotte"] == ["New York", "Charlotte"];
    assert g["Charlotte"] + ["Pittsburgh"] == ["Atlanta", "Richmond", "Pittsburgh"];
  }

  /** The store above after addConnection("Louisville", "Boston"). */
  function Grown(): (g: Adjacency)
    ensures GraphInvariant(g)
    ensures g == GrownMap()
  {
    var e := Eastern();
    GrownStep();
    ConnectPreservesInvariant(e, Some("Louisville"), Some("Boston"));
    Connect(e, Some("Louisville"), Some("Boston"))
  }

  lemma GrownStep()
    ensures Connect(EasternMap(), Some("Louisville"), Some("Boston")) == GrownMap()
  {
    TrimmedName("Louisville");
    TrimmedName("Boston");
    GrownLookup();
    ConnectClose(EasternMap(), "Louisville", "Boston");
    GrownUpdate();
  }

  lemma GrownLookup()
    ensures "Louisville" in EasternMap() && "Boston" in EasternMap()
    ensures "Boston" !in EasternMap()["Louisville"] && "Louisville" !in EasternMap()["Boston"]
  {
    assert EasternMap()["Louisville"] == ["Richmond"];
    assert EasternMap()["Boston"] == ["New York"];
  }

  lemma GrownUpdate()
    ensures "Louisville" in EasternMap() && "Boston" in EasternMap()
    ensures EasternMap()["Louisville" := EasternMap()["Louisville"] + ["Boston"]]
                        ["Boston" := EasternMap()["Boston"] + ["Louisville"]]
         == GrownMap()
  {
    var g := EasternMap();
    assert g["Louisville"] + ["Boston"] == ["Richmond", "Boston"];
    assert g["Boston"] + ["Louisville"] == ["New York", "Louisville"];
  }

  /**
   * The stores above as the search from a sees them: a gained c; c gained
   * a, r and p in that order; r gained c then l; p gained n then c.
   */
  predicate DetourShape(g: Adjacency, a: string, c: string, r: string, p: string, l: string, n: string) {
    && a in g && c in g && r in g && p in g && l in g && n in g
    && g[a] == [c] && g[c] == [a, r, p] && g[r] == [c, l] && g[p] == [n, c]
    && a != c && a != r && a != p && a != l && a != n
    && c != r && c != p && c != l && c != n
    && r != p && r != l && r != n
    && p != l && p != n && l != n
  }

  /**
   * After growth: l gained r then b, n gained b then p, so b is four hops
   * from a both through r and l and through p and n.
   */
  predicate TieShape(g: Adjacency, a: string, c: string, r: string, p: string, l: string, n: string, b: string) {
    && DetourShape(g, a, c, r, p, l, n)
    && b in g && g[l] == [r, b] && g[n] == [b, p]
    && b != a && b != c && b != r && b != p && b != l && b != n
  }

  /**
   * The first four rounds of the search from a: r is queued before p, as c
   * gained r first, so the path to l is queued before the path to n.
   */
  lemma DetourRounds(g: Adjacency, a: string, c: string, r: string, p: string, l: string, n: string, t: string)
    requires GraphInvariant(g) && DetourShape(g, a, c, r, p, l, n)
    requires !EqualsIgnoreCase(a, t) && !EqualsIgnoreCase(c, t) && !EqualsIgnoreCase(r, t) && !EqualsIgnoreCase(p, t)
    ensures Search(g, t, [[a]], {a}) == Search(g, t, [[a, c, r, l], [a, c, p, n]], {a, c, r, p, l, n})
  {
    DetourFirstRounds(g, a, c, r, p, l, n, t);
    DetourThirdRound(g, a, c, r, p, l, n, t);
    DetourFourthRound(g, a, c, r, p, l, n, t);
  }

  /** Atlanta's one neighbour, then Charlotte's two unvisited ones, in order. */
  lemma DetourFirstRounds(g: Adjacency, a: string, c: string, r: string, p: string, l: string, n: string, t: string)
    requires GraphInvariant(g) && DetourShape(g, a, c, r, p, l, n)
    requires !EqualsIgnoreCase(a, t) && !EqualsIgnoreCase(c, t)
    ensures Search(g, t, [[a]], {a}) == Search(g, t, [[a, c, r], [a, c, p]], {a, c, r, p})
  {
    UnvisitedOne(c, {a});
    assert [a] + [c] == [a, c];
    HopTo(g, t, [a], {a}, c, [a, c], {a, c});
    DetourSecondRound(g, a, c, r, p, l, n, t);
  }

  /** Expanding c queues the paths to r and to p, in that order. */
  lemma DetourSecondRound(g: Adjacency, a: string, c: string, r: string, p: string, l: string, n: string, t: string)
    requires GraphInvariant(g) && DetourShape(g, a, c, r, p, l, n) && !EqualsIgnoreCase(c, t)
    ensures Search(g, t, [[a, c]], {a, c}) == Search(g, t, [[a, c, r], [a, c, p]], {a, c, r, p})
  {
    assert [a, r, p][1..] == [r, p];
    UnvisitedPair(r, p, {a, c});
    assert Unvisited([a, r, p], {a, c}) == [r, p];
    ExtendTwo([a, c], r, p);
    assert [a, c] + [r] == [a, c, r] && [a, c] + [p] == [a, c, p];
    assert Last([a, c]) == c;
    assert [[a, c]][1..] + [[a, c, r], [a, c, p]] == [[a, c, r], [a, c, p]];
    Step(g, t, [[a, c]], {a, c}, [r, p], [[a, c, r], [a, c, p]], {a, c, r, p});
  }

  /** Expanding r queues the path to l behind the path to p. */
  lemma DetourThirdRound(g: Adjacency, a: string, c: string, r: string, p: string, l: string, n: string, t: string)
    requires GraphInvariant(g) && DetourShape(g, a, c, r, p, l, n) && !EqualsIgnoreCase(r, t)
    ensures Search(g, t, [[a, c, r], [a, c, p]], {a, c, r, p})
         == Search(g, t, [[a, c, p], [a, c, r, l]], {a, c, r, p, l})
  {
    UnvisitedPair(c, l, {a, c, r, p});
    ExtendOne([a, c, r], l);
    assert [a, c, r] + [l] == [a, c, r, l];
    assert Last([a, c, r]) == r;
    assert [[a, c, r], [a, c, p]][1..] + [[a, c, r, l]] == [[a, c, p], [a, c, r, l]];
    Step(g, t, [[a, c, r], [a, c, p]], {a, c, r, p}, [l], [[a, c, p], [a, c, r, l]], {a, c, r, p, l});
  }

  /** Expanding p queues the path to n behind the path to l. */
  lemma DetourFourthRound(g: Adjacency, a: string, c: string, r: string, p: string, l: string, n: string, t: string)
    requires GraphInvariant(g) && DetourShape(g, a, c, r, p, l, n) && !EqualsIgnoreCase(p, t)
    ensures Search(g, t, [[a, c, p], [a, c, r, l]], {a, c, r, p, l})
         == Search(g, t, [[a, c, r, l], [a, c, p, n]], {a, c, r, p, l, n})
  {
    UnvisitedPair(n, c, {a, c, r, p, l});
    ExtendOne([a, c, p], n);
    assert [a, c, p] + [n] == [a, c, p, n];
    assert Last([a, c, p]) == p;
    assert [[a, c, p], [a, c, r, l]][1..] + [[a, c, p, n]] == [[a, c, r, l], [a, c, p, n]];
    Step(g, t, [[a, c, p], [a, c, r, l]], {a, c, r, p, l}, [n], [[a, c, r, l], [a, c, p, n]], {a, c, r, p, l, n});
  }

  /** Expanding l queues b; expanding n then adds nothing, as b is already visited. */
  lemma TieLastRounds(g: Adjacency, a: string, c: string, r: string, p: string, l: string, n: string, b: string)
    requires GraphInvariant(g) && TieShape(g, a, c, r, p, l, n, b)
    requires !EqualsIgnoreCase(l, b) && !EqualsIgnoreCase(n, b)
    ensures Search(g, b, [[a, c, r, l], [a, c, p, n]], {a, c, r, p, l, n})
         == Search(g, b, [[a, c, r, l, b]], {a, c, r, p, l, n, b})
  {
    UnvisitedPair(r, b, {a, c, r, p, l, n});
    ExtendOne([a, c, r, l], b);
    assert [a, c, r, l] + [b] == [a, c, r, l, b];
    assert Last([a, c, r, l]) == l;
    assert [[a, c, r, l], [a, c, p, n]][1..] + [[a, c, r, l, b]] == [[a, c, p, n], [a, c, r, l, b]];
    Step(g, b, [[a, c, r, l], [a, c, p, n]], {a, c, r, p, l, n}, [b],
         [[a, c, p, n], [a, c, r, l, b]], {a, c, r, p, l, n, b});
    UnvisitedPair(b, p, {a, c, r, p, l, n, b});
    ExtendTwo([a, c, p, n], b, p);
    assert Last([a, c, p, n]) == n;
    assert [[a, c, p, n], [a, c, r, l, b]][1..] + [] == [[a, c, r, l, b]];
    Step(g, b, [[a, c, p, n], [a, c, r, l, b]], {a, c, r, p, l, n, b}, [],
         [[a, c, r, l, b]], {a, c, r, p, l, n, b});
  }

  /**
   * On a tie the search returns the path through l: b is as many hops away
   * through p and n, but r comes before p among c's neighbours.
   */
  lemma TieRoute(g: Adjacency, a: string, c: string, r: string, p: string, l: string, n: string, b: string)
    requires GraphInvariant(g) && TieShape(g, a, c, r, p, l, n, b)
    requires Trim(a) == a && Trim(b) == b && |a| != |b|
    requires |c| != |b| && |r| != |b| && |p| != |b| && |l| != |b| && |n| != |b|
    ensures QueryRoute(g, Some(a), Some(b)) == [a, c, r, l, b]
    ensures Leads(g, a, b, [a, c, p, n, b])
  {
    QueryStarts(g, a, b);
    DetourRounds(g, a, c, r, p, l, n, b);
    TieLastRounds(g, a, c, r, p, l, n, b);
    ArriveAt(g, b, [[a, c, r, l, b]], {a, c, r, p, l, n, b});
    TieRival(g, a, c, r, p, l, n, b);
  }

  /** The route through p and n, as long as the one returned. */
  lemma TieRival(g: Adjacency, a: string, c: string, r: string, p: string, l: string, n: string, b: string)
    requires TieShape(g, a, c, r, p, l, n, b)
    ensures Leads(g, a, b, [a, c, p, n, b])
  {
    assert [a, c, p, n, b][4] == b;
  }

  /**
   * getRoute("Atlanta", "Louisville") before the growth: the detour through
   * Pittsburgh does not lead to Louisville.
   */
  lemma EasternRoute()
    ensures QueryRoute(Eastern(), Some("Atlanta"), Some("Louisville"))
         == ["Atlanta", "Charlotte", "Richmond", "Louisville"]
  {
    EasternHasShape();
    EasternRouteOn(Eastern());
  }

  lemma EasternHasShape()
    ensures DetourShape(EasternMap(), "Atlanta", "Charlotte", "Richmond", "Pittsburgh", "Louisville", "New York")
  {
  }

  lemma EasternRouteOn(g: Adjacency)
    requires GraphInvariant(g)
    requires DetourShape(g, "Atlanta", "Charlotte", "Richmond", "Pittsburgh", "Louisville", "New York")
    ensures QueryRoute(g, Some("Atlanta"), Some("Louisville"))
         == ["Atlanta", "Charlotte", "Richmond", "Louisville"]
  {
    TrimmedName("Atlanta");
    TrimmedName("Louisville");
    PittsburghIsNotLouisville();
    DetourRoute(g, "Atlanta", "Charlotte", "Richmond", "Pittsburgh", "Louisville", "New York");
  }

  lemma PittsburghIsNotLouisville()
    ensures !EqualsIgnoreCase("Pittsburgh", "Louisville")
  {
    assert LowerChar("Pittsburgh"[0]) != LowerChar("Louisville"[0]);
  }

  /** The search from a reaches l through c and r, before it expands p. */
  lemma DetourRoute(g: Adjacency, a: string, c: string, r: string, p: string, l: string, n: string)
    requires GraphInvariant(g) && DetourShape(g, a, c, r, p, l, n)
    requires Trim(a) == a && Trim(l) == l && |a| != |l|
    requires !EqualsIgnoreCase(c, l) && !EqualsIgnoreCase(r, l) && !EqualsIgnoreCase(p, l)
    ensures QueryRoute(g, Some(a), Some(l)) == [a, c, r, l]
  {
    QueryStarts(g, a, l);
    DetourRounds(g, a, c, r, p, l, n, l);
    assert Last([a, c, r, l]) == l && Last([a, c, p, n]) == n;
    ArriveAt(g, l, [[a, c, r, l], [a, c, p, n]], {a, c, r, p, l, n});
  }

  /**
   * After addConnection("Louisville", "Boston"), getRoute("Atlanta", "Boston")
   * is the route to Louisville with Boston appended, although the route
   * through Pittsburgh and New York has as many stops.
   */
  lemma GrownRoute()
    ensures QueryRoute(Grown(), Some("Atlanta"), Some("Boston"))
         == ["Atlanta", "Charlotte", "Richmond", "Louisville", "Boston"]
    ensures Leads(Grown(), "Atlanta", "Boston", ["Atlanta", "Charlotte", "Pittsburgh", "New York", "Boston"])
  {
    GrownHasShape();
    GrownRouteOn(Grown());
  }

  lemma GrownHasShape()
    ensures TieShape(GrownMap(), "Atlanta", "Charlotte", "Richmond", "Pittsburgh", "Louisville", "New York", "Boston")
  {
  }

  lemma GrownRouteOn(g: Adjacency)
    requires GraphInvariant(g)
    requires TieShape(g, "Atlanta", "Charlotte", "Richmond", "Pittsburgh", "Louisville", "New York", "Boston")
    ensures QueryRoute(g, Some("Atlanta"), Some("Boston"))
         == ["Atlanta", "Charlotte", "Richmond", "Louisville", "Boston"]
    ensures Leads(g, "Atlanta", "Boston", ["Atlanta", "Charlotte", "Pittsburgh", "New York", "Boston"])
  {
    TrimmedName("Atlanta");
    TrimmedName("Boston");
    TieRoute(g, "Atlanta", "Charlotte", "Richmond", "Pittsburgh", "Louisville", "New York", "Boston");
  }

  // ---------------------------------------------------------------------
  // The chain next to a separate pair Chicago - St. Louis.

  function TwoPartsMap(): Adjacency {
    map["Atlanta" := ["Charlotte"], "Charlotte" := ["Atlanta", "Richmond"],
        "Richmond" := ["Charlotte", "Louisville"], "Louisville" := ["Richmond"],
        "Chicago" := ["St. Louis"], "St. Louis" := ["Chicago"]]
  }

  lemma TwoPartsContents()
    ensures Connect(ChainMap(), Some("Chicago"), Some("St. Louis")) == TwoPartsMap()
  {
    TrimmedName("Chicago");
    TrimmedName("St. Louis");
    TwoPartsLookup();
    ConnectNew(ChainMap(), "Chicago", "St. Louis");
    TwoPartsUpdate();
  }

  lemma TwoPartsLookup()
    ensures "Chicago" !in ChainMap() && "St. Louis" !in ChainMap()
  {
  }

  lemma TwoPartsUpdate()
    ensures ChainMap()["Chicago" := ["St. Louis"]]["St. Louis" := ["Chicago"]] == TwoPartsMap()
  {
  }

  /** The store after the chain's three connections and then Chicago - St. Louis. */
  function TwoParts(): (g: Adjacency)
    ensures GraphInvariant(g)
    ensures g == TwoPartsMap()
  {
    var c := Chain();
    TwoPartsContents();
    ConnectPreservesInvariant(c, Some("Chicago"), Some("St. Louis"));
    Connect(c, Some("Chicago"), Some("St. Louis"))
  }

  /** Atlanta and Chicago are both stored but lie in different parts: no route. */
  lemma TwoPartsNoRoute()
    ensures QueryRoute(TwoParts(), Some("Atlanta"), Some("Chicago")) == []
  {
    TwoPartsNoRouteOn(TwoParts());
  }

  lemma TwoPartsNoRouteOn(g: Adjacency)
    requires GraphInvariant(g) && g == TwoPartsMap()
    ensures QueryRoute(g, Some("Atlanta"), Some("Chicago")) == []
  {
    ChainPartClosed(g);
    ChainPartAvoidsChicago();
    ClosedSetBlocksRoutes(g, "Atlanta", "Chicago", {"Atlanta", "Charlotte", "Richmond", "Louisville"});
    TrimmedName("Atlanta");
    TrimmedName("Chicago");
    QueryRouteCorrect(g, Some("Atlanta"), Some("Chicago"));
  }

  /** The chain's endpoints have no neighbour outside the chain. */
  lemma ChainPartClosed(g: Adjacency)
    requires g == TwoPartsMap()
    ensures var part := {"Atlanta", "Charlotte", "Richmond", "Louisville"};
      forall u, w :: u in part && Adjacent(g, u, w) ==> w in part
  {
    var part := {"Atlanta", "Charlotte", "Richmond", "Louisville"};
    forall u, w | u in part && Adjacent(g, u, w) ensures w in part {
      assert u == "Atlanta" || u == "Charlotte" || u == "Richmond" || u == "Louisville";
    }
  }

  /** No endpoint of the chain is Chicago, not even ignoring case. */
  lemma ChainPartAvoidsChicago()
    ensures forall u :: u in {"Atlanta", "Charlotte", "Richmond", "Louisville"} ==> !EqualsIgnoreCase(u, "Chicago")
  {
    forall u | u in {"Atlanta", "Charlotte", "Richmond", "Louisville"} ensures !EqualsIgnoreCase(u, "Chicago") {
      if u == "Atlanta" {
        assert LowerChar(u[0]) != LowerChar("Chicago"[0]);
      } else {
        assert |u| != |"Chicago"|;
      }
    }
  }

  // ---------------------------------------------------------------------
  // Queries the name checks reject.

  /**
   * On the chain: null names, empty names, a name that is not stored on
   * either side, and the same name with other case and blanks find nothing.
   */
  lemma RejectedQueries()
    ensures QueryRoute(Chain(), None, None) == []
    ensures QueryRoute(Chain(), None, Some("Atlanta")) == []
    ensures QueryRoute(Chain(), Some(""), Some("")) == []
    ensures QueryRoute(Chain(), Some("Atlanta"), Some("Delhi")) == []
    ensures QueryRoute(Chain(), Some("Delhi"), Some("Atlanta")) == []
    ensures QueryRoute(Chain(), Some(" Atlanta"), Some("ATLANTA ")) == []
  {
    RejectedQueriesOn(Chain());
  }

  lemma RejectedQueriesOn(g: Adjacency)
    requires GraphInvariant(g) && g == ChainMap()
    ensures QueryRoute(g, None, None) == []
    ensures QueryRoute(g, None, Some("Atlanta")) == []
    ensures QueryRoute(g, Some(""), Some("")) == []
    ensures QueryRoute(g, Some("Atlanta"), Some("Delhi")) == []
    ensures QueryRoute(g, Some("Delhi"), Some("Atlanta")) == []
    ensures QueryRoute(g, Some(" Atlanta"), Some("ATLANTA ")) == []
  {
    NullOrEmptyRejected(g);
    assert "Delhi" !in g;
    UnknownNameRejected(g);
    SameNameRejected(g);
  }

  /** A null name, or two empty names, find nothing on any store. */
  lemma NullOrEmptyRejected(g: Adjacency)
    requires GraphInvariant(g)
    ensures QueryRoute(g, None, None) == []
    ensures QueryRoute(g, None, Some("Atlanta")) == []
    ensures QueryRoute(g, Some(""), Some("")) == []
  {
    TrimIsBlankFreeInfix("", 0, 0);
    QueryRouteCorrect(g, Some(""), Some(""));
  }

  /** A name that is not stored finds nothing, whichever side it is on. */
  lemma UnknownNameRejected(g: Adjacency)
    requires GraphInvariant(g) && "Delhi" !in g
    ensures QueryRoute(g, Some("Atlanta"), Some("Delhi")) == []
    ensures QueryRoute(g, Some("Delhi"), Some("Atlanta")) == []
  {
    TrimmedName("Atlanta");
    TrimmedName("Delhi");
    QueryRouteCorrect(g, Some("Atlanta"), Some("Delhi"));
    QueryRouteCorrect(g, Some("Delhi"), Some("Atlanta"));
  }

  /** " Atlanta" and "ATLANTA " name the same endpoint once trimmed and compared ignoring case. */
  lemma SameNameRejected(g: Adjacency)
    requires GraphInvariant(g)
    ensures QueryRoute(g, Some(" Atlanta"), Some("ATLANTA ")) == []
  {
    SameNameInvalid();
  }

  lemma SameNameInvalid()
    ensures !ValidEndPointNames(Some(" Atlanta"), Some("ATLANTA "))
  {
    LeadingBlankTrimmed();
    TrailingBlankTrimmed();
    UpperCaseSameName();
  }

  lemma LeadingBlankTrimmed()
    ensures Trim(" Atlanta") == "Atlanta"
  {
    TrimIsBlankFreeInfix(" Atlanta", 1, 8);
    assert " Atlanta"[1..8] == "Atlanta";
  }

  lemma TrailingBlankTrimmed()
    ensures Trim("ATLANTA ") == "ATLANTA"
  {
    TrimIsBlankFreeInfix("ATLANTA ", 0, 7);
    assert "ATLANTA "[0..7] == "ATLANTA";
  }

  lemma UpperCaseSameName()
    ensures EqualsIgnoreCase("Atlanta", "ATLANTA")
  {
    var a, b := "Atlanta", "ATLANTA";
    forall i | 0 <= i < |a| ensures LowerChar(a[i]) == LowerChar(b[i]) {
      assert a[i] == b[i] || a[i] as int == b[i] as int + 32;
    }
  }

  // ---------------------------------------------------------------------
  // A four-cycle on which the route back is not the route there reversed.

  /**
   * addConnection over Ames - Boise, Detroit - Camden, Ames - Camden and
   * Detroit - Boise, in that order.
   */
  function Square(): (g: Adjacency)
    ensures GraphInvariant(g)
    ensures g == SquareMap()
  {
    SquareContents();
    Connect(Connect(Connect(Connect(map[], Some("Ames"), Some("Boise")),
                            Some("Detroit"), Some("Camden")),
                    Some("Ames"), Some("Camden")),
            Some("Detroit"), Some("Boise"))
  }

  function SquareMap(): Adjacency {
    map["Ames" := ["Boise", "Camden"], "Boise" := ["Ames", "Detroit"],
        "Detroit" := ["Camden", "Boise"], "Camden" := ["Detroit", "Ames"]]
  }

  function SquareHalf(): Adjacency {
    map["Ames" := ["Boise"], "Boise" := ["Ames"], "Detroit" := ["Camden"], "Camden" := ["Detroit"]]
  }

  lemma SquareContents()
    ensures var g := Connect(Connect(Connect(Connect(map[], Some("Ames"), Some("Boise")),
                                             Some("Detroit"), Some("Camden")),
                                     Some("Ames"), Some("Camden")),
                             Some("Detroit"), Some("Boise"));
      GraphInvariant(g) && g == SquareMap()
  {
    SquareFirstEdge();
    SquareSecondEdge();
    SquareThirdEdge();
    SquareFourthEdge();
    ConnectPreservesInvariant(map[], Some("Ames"), Some("Boise"));
    ConnectPreservesInvariant(Square1Map(), Some("Detroit"), Some("Camden"));
    ConnectPreservesInvariant(SquareHalf(), Some("Ames"), Some("Camden"));
    ConnectPreservesInvariant(Square3Map(), Some("Detroit"), Some("Boise"));
  }

  function Square1Map(): Adjacency {
    map["Ames" := ["Boise"], "Boise" := ["Ames"]]
  }

  function Square3Map(): Adjacency {
    map["Ames" := ["Boise", "Camden"], "Boise" := ["Ames"], "Detroit" := ["Camden"], "Camden" := ["Detroit", "Ames"]]
  }

  lemma SquareFirstEdge()
    ensures Connect(map[], Some("Ames"), Some("Boise")) == Square1Map()
  {
    TrimmedName("Ames");
    TrimmedName("Boise");
    ConnectNew(map[], "Ames", "Boise");
    assert map[]["Ames" := ["Boise"]]["Boise" := ["Ames"]] == Square1Map();
  }

  lemma SquareSecondEdge()
    ensures Connect(Square1Map(), Some("Detroit"), Some("Camden")) == SquareHalf()
  {
    TrimmedName("Detroit");
    TrimmedName("Camden");
    SquareSecondLookup();
    ConnectNew(Square1Map(), "Detroit", "Camden");
    SquareSecondUpdate();
  }

  lemma SquareSecondLookup()
    ensures "Detroit" !in Square1Map() && "Camden" !in Square1Map()
  {
  }

  lemma SquareSecondUpdate()
    ensures Square1Map()["Detroit" := ["Camden"]]["Camden" := ["Detroit"]] == SquareHalf()
  {
  }

  lemma SquareThirdEdge()
    ensures Connect(SquareHalf(), Some("Ames"), Some("Camden")) == Square3Map()
  {
    TrimmedName("Ames");
    TrimmedName("Camden");
    SquareThirdLookup();
    ConnectClose(SquareHalf(), "Ames", "Camden");
    SquareThirdUpdate();
  }

  lemma SquareThirdLookup()
    ensures "Ames" in SquareHalf() && "Camden" in SquareHalf()
    ensures "Camden" !in SquareHalf()["Ames"] && "Ames" !in SquareHalf()["Camden"]
  {
    assert SquareHalf()["Ames"] == ["Boise"];
    assert SquareHalf()["Camden"] == ["Detroit"];
  }

  lemma SquareThirdUpdate()
    ensures "Ames" in SquareHalf() && "Camden" in SquareHalf()
    ensures SquareHalf()["Ames" := SquareHalf()["Ames"] + ["Camden"]]["Camden" := SquareHalf()["Camden"] + ["Ames"]]
         == Square3Map()
  {
    var h := SquareHalf();
    assert h["Ames"] + ["Camden"] == ["Boise", "Camden"];
    assert h["Camden"] + ["Ames"] == ["Detroit", "Ames"];
  }

  lemma SquareFourthEdge()
    ensures Connect(Square3Map(), Some("Detroit"), Some("Boise")) == SquareMap()
  {
    TrimmedName("Detroit");
    TrimmedName("Boise");
    SquareFourthLookup();
    ConnectClose(Square3Map(), "Detroit", "Boise");
    SquareFourthUpdate();
  }

  lemma SquareFourthLookup()
    ensures "Detroit" in Square3Map() && "Boise" in Square3Map()
    ensures "Boise" !in Square3Map()["Detroit"] && "Detroit" !in Square3Map()["Boise"]
  {
    assert Square3Map()["Detroit"] == ["Camden"];
    assert Square3Map()["Boise"] == ["Ames"];
  }

  lemma SquareFourthUpdate()
    ensures "Detroit" in Square3Map() && "Boise" in Square3Map()
    ensures Square3Map()["Detroit" := Square3Map()["Detroit"] + ["Boise"]]["Boise" := Square3Map()["Boise"] + ["Detroit"]]
         == SquareMap()
  {
    var h := Square3Map();
    assert h["Detroit"] + ["Boise"] == ["Camden", "Boise"];
    assert h["Boise"] + ["Detroit"] == ["Ames", "Detroit"];
  }

  /**
   * One round of the search whose front path does not end at dst: the
   * front path is replaced at the back of the queue by its extensions.
   */
  lemma Step(adj: Adjacency, dst: string, queue: seq<seq<string>>, visited: set<string>, added: seq<string>,
             queue': seq<seq<string>>, visited': set<string>)
    requires GraphInvariant(adj) && visited <= adj.Keys && QueueInGraph(adj, queue) && queue != []
    requires !EqualsIgnoreCase(Last(queue[0]), dst)
    requires Unvisited(adj[Last(queue[0])], visited) == added
    requires queue' == queue[1..] + Extend(queue[0], added) && visited' == visited + Elems(added)
    ensures QueueInGraph(adj, queue') && visited' <= adj.Keys
    ensures Search(adj, dst, queue, visited) == Search(adj, dst, queue', visited')
  {
    SearchUnfold(adj, dst, queue, visited);
  }

  /** A path extended by one neighbour. */
  lemma ExtendOne(path: seq<string>, w: string)
    ensures Extend(path, [w]) == [path + [w]]
    ensures Elems([w]) == {w}
  {
  }

  /** A path extended by two neighbours, and by none. */
  lemma ExtendTwo(path: seq<string>, w1: string, w2: string)
    ensures Extend(path, [w1, w2]) == [path + [w1], path + [w2]]
    ensures Extend(path, []) == []
    ensures Elems([w1, w2]) == {w1, w2} && Elems([]) == {}
  {
  }

  /** The four-cycle as the search sees it: its keys and their neighbour lists. */
  predicate SquareShape(g: Adjacency) {
    && "Ames" in g && "Boise" in g && "Camden" in g && "Detroit" in g
    && g["Ames"] == ["Boise", "Camden"] && g["Boise"] == ["Ames", "Detroit"]
    && g["Detroit"] == ["Camden", "Boise"] && g["Camden"] == ["Detroit", "Ames"]
  }

  /**
   * From Ames the search reaches Detroit through Boise, the first neighbour
   * Ames gained; from Detroit it reaches Ames through Camden, the first
   * neighbour Detroit gained.
   */
  lemma SquareRoutes(g: Adjacency)
    requires GraphInvariant(g) && SquareShape(g)
    ensures QueryRoute(g, Some("Ames"), Some("Detroit")) == ["Ames", "Boise", "Detroit"]
    ensures QueryRoute(g, Some("Detroit"), Some("Ames")) == ["Detroit", "Camden", "Ames"]
  {
    TrimmedName("Ames");
    TrimmedName("Detroit");
    SquareDiagonals(g);
    DiagonalRoute(g, "Ames", "Boise", "Camden", "Detroit");
    DiagonalRoute(g, "Detroit", "Camden", "Boise", "Ames");
  }

  lemma SquareDiagonals(g: Adjacency)
    requires SquareShape(g)
    ensures Diagonal(g, "Ames", "Boise", "Camden", "Detroit")
    ensures Diagonal(g, "Detroit", "Camden", "Boise", "Ames")
  {
  }

  /**
   * Opposite corners of a four-cycle: s gained x before y, x lists s before
   * t and y lists t before s. The search from s expands x first and finds t
   * through it.
   */
  predicate Diagonal(g: Adjacency, s: string, x: string, y: string, t: string) {
    && s in g && x in g && y in g && t in g
    && g[s] == [x, y] && g[x] == [s, t] && g[y] == [t, s]
    && s != x && s != y && s != t && x != y && x != t && y != t
  }

  lemma DiagonalRoute(g: Adjacency, s: string, x: string, y: string, t: string)
    requires GraphInvariant(g) && Diagonal(g, s, x, y, t)
    requires Trim(s) == s && Trim(t) == t && |s| != |t|
    requires !EqualsIgnoreCase(x, t) && !EqualsIgnoreCase(y, t)
    ensures QueryRoute(g, Some(s), Some(t)) == [s, x, t]
  {
    QueryStarts(g, s, t);
    DiagonalFirstStep(g, s, x, y, t);
    DiagonalSecondStep(g, s, x, y, t);
    DiagonalThirdStep(g, s, x, y, t);
    ArriveAt(g, t, [[s, x, t]], {s, x, y, t});
  }

  /** The inner loop of findRoute over a two-element neighbour list. */
  lemma UnvisitedPair(a: string, b: string, visited: set<string>)
    ensures Unvisited([a, b], visited)
         == (if a in visited then [] else [a]) + (if b in visited || b == a then [] else [b])
  {
    assert [a, b][1..] == [b];
    if a in visited {
      UnvisitedOne(b, visited);
    } else {
      UnvisitedOne(b, visited + {a});
    }
  }

  lemma UnvisitedOne(b: string, visited: set<string>)
    ensures Unvisited([b], visited) == if b in visited then [] else [b]
  {
    assert [b][1..] == [];
  }

  /** The start's two neighbours are enqueued in the order they were added. */
  lemma DiagonalFirstStep(g: Adjacency, s: string, x: string, y: string, t: string)
    requires GraphInvariant(g) && Diagonal(g, s, x, y, t) && |s| != |t|
    ensures Search(g, t, [[s]], {s}) == Search(g, t, [[s, x], [s, y]], {s, x, y})
  {
    UnvisitedPair(x, y, {s});
    ExtendTwo([s], x, y);
    assert [s] + [x] == [s, x] && [s] + [y] == [s, y];
    assert [[s]][1..] + [[s, x], [s, y]] == [[s, x], [s, y]];
    Step(g, t, [[s]], {s}, [x, y], [[s, x], [s, y]], {s, x, y});
  }

  /** Expanding x enqueues t behind the path to y. */
  lemma DiagonalSecondStep(g: Adjacency, s: string, x: string, y: string, t: string)
    requires GraphInvariant(g) && Diagonal(g, s, x, y, t) && !EqualsIgnoreCase(x, t)
    ensures Search(g, t, [[s, x], [s, y]], {s, x, y}) == Search(g, t, [[s, y], [s, x, t]], {s, x, y, t})
  {
    UnvisitedPair(s, t, {s, x, y});
    ExtendOne([s, x], t);
    assert [s, x] + [t] == [s, x, t];
    assert Last([s, x]) == x;
    assert [[s, x], [s, y]][1..] + [[s, x, t]] == [[s, y], [s, x, t]];
    Step(g, t, [[s, x], [s, y]], {s, x, y}, [t], [[s, y], [s, x, t]], {s, x, y, t});
  }

  /** Expanding y adds nothing: its neighbours are already visited. */
  lemma DiagonalThirdStep(g: Adjacency, s: string, x: string, y: string, t: string)
    requires GraphInvariant(g) && Diagonal(g, s, x, y, t) && !EqualsIgnoreCase(y, t)
    ensures Search(g, t, [[s, y], [s, x, t]], {s, x, y, t}) == Search(g, t, [[s, x, t]], {s, x, y, t})
  {
    UnvisitedPair(t, s, {s, x, y, t});
    ExtendTwo([s, y], t, t);
    assert Last([s, y]) == y;
    assert [[s, y], [s, x, t]][1..] + [] == [[s, x, t]];
    Step(g, t, [[s, y], [s, x, t]], {s, x, y, t}, [], [[s, x, t]], {s, x, y, t});
  }

  /**
   * The route back is not always the route there reversed: both routes on
   * the four-cycle are shortest, but each search follows the neighbour its
   * own start gained first.
   */
  lemma RouteBackNotMirrored()
    ensures QueryRoute(Square(), Some("Ames"), Some("Detroit")) == ["Ames", "Boise", "Detroit"]
    ensures QueryRoute(Square(), Some("Detroit"), Some("Ames")) == ["Detroit", "Camden", "Ames"]
    ensures QueryRoute(Square(), Some("Detroit"), Some("Ames"))
         != Reverse(QueryRoute(Square(), Some("Ames"), Some("Detroit")))
  {
    SquareHasShape();
    NotMirroredOn(Square());
  }

  lemma SquareHasShape()
    ensures SquareShape(SquareMap())
  {
  }

  lemma NotMirroredOn(g: Adjacency)
    requires GraphInvariant(g) && SquareShape(g)
    ensures QueryRoute(g, Some("Ames"), Some("Detroit")) == ["Ames", "Boise", "Detroit"]
    ensures QueryRoute(g, Some("Detroit"), Some("Ames")) == ["Detroit", "Camden", "Ames"]
    ensures QueryRoute(g, Some("Detroit"), Some("Ames")) != Reverse(QueryRoute(g, Some("Ames"), Some("Detroit")))
  {
    SquareRoutes(g);
    assert Reverse(["Ames", "Boise", "Detroit"])[1] == "Boise";
  }

  /** The endpoints of a route in the opposite order. */
  function Reverse(p: seq<string>): (r: seq<string>)
    ensures |r| == |p|
    ensures forall i :: 0 <= i < |p| ==> r[i] == p[|p| - 1 - i]
  {
    if p == [] then [] else Reverse(p[1..]) + [p[0]]
  }

  // ---------------------------------------------------------------------
  // Two keys that differ only in case: the search accepts either as the
  // destination but starts from the exact key, so connectivity is not
  // symmetric.

  /** addConnection("Ames", "boise") and then addConnection("Boise", "Camden"). */
  function TwoSpellings(): (g: Adjacency)
    ensures GraphInvariant(g)
    ensures g == TwoSpellingsMap()
  {
    TwoSpellingsFirstEdge();
    TwoSpellingsSecondEdge();
    ConnectPreservesInvariant(map[], Some("Ames"), Some("boise"));
    ConnectPreservesInvariant(TwoSpellings1Map(), Some("Boise"), Some("Camden"));
    Connect(Connect(map[], Some("Ames"), Some("boise")), Some("Boise"), Some("Camden"))
  }

  function TwoSpellings1Map(): Adjacency {
    map["Ames" := ["boise"], "boise" := ["Ames"]]
  }

  function TwoSpellingsMap(): Adjacency {
    map["Ames" := ["boise"], "boise" := ["Ames"], "Boise" := ["Camden"], "Camden" := ["Boise"]]
  }

  lemma TwoSpellingsFirstEdge()
    ensures Connect(map[], Some("Ames"), Some("boise")) == TwoSpellings1Map()
  {
    TrimmedName("Ames");
    TrimmedName("boise");
    ConnectNew(map[], "Ames", "boise");
    assert map[]["Ames" := ["boise"]]["boise" := ["Ames"]] == TwoSpellings1Map();
  }

  lemma TwoSpellingsSecondEdge()
    ensures Connect(TwoSpellings1Map(), Some("Boise"), Some("Camden")) == TwoSpellingsMap()
  {
    TrimmedName("Boise");
    TrimmedName("Camden");
    TwoSpellingsLookup();
    ConnectNew(TwoSpellings1Map(), "Boise", "Camden");
    TwoSpellingsUpdate();
  }

  /** "Boise" is not the stored key "boise": keys compare exactly. */
  lemma TwoSpellingsLookup()
    ensures "Boise" !in TwoSpellings1Map() && "Camden" !in TwoSpellings1Map()
  {
    assert "Boise"[0] != "boise"[0];
  }

  lemma TwoSpellingsUpdate()
    ensures TwoSpellings1Map()["Boise" := ["Camden"]]["Camden" := ["Boise"]] == TwoSpellingsMap()
  {
  }

  predicate TwoSpellingsShape(g: Adjacency) {
    && "Ames" in g && "boise" in g && "Boise" in g && "Camden" in g
    && g["Ames"] == ["boise"] && g["boise"] == ["Ames"] && g["Boise"] == ["Camden"] && g["Camden"] == ["Boise"]
  }

  /** From Ames the search stops at "boise", which equals "Boise" ignoring case. */
  lemma SpellingRouteThere(g: Adjacency)
    requires GraphInvariant(g) && TwoSpellingsShape(g)
    ensures QueryRoute(g, Some("Ames"), Some("Boise")) == ["Ames", "boise"]
  {
    TrimmedName("Ames");
    TrimmedName("Boise");
    QueryStarts(g, "Ames", "Boise");
    SpellingFirstHop(g);
    LowerCaseSameName();
    Arrive(g, "Boise", ["Ames", "boise"], {"Ames", "boise"});
  }

  lemma SpellingFirstHop(g: Adjacency)
    requires GraphInvariant(g) && TwoSpellingsShape(g)
    ensures Search(g, "Boise", [["Ames"]], {"Ames"}) == Search(g, "Boise", [["Ames", "boise"]], {"Ames", "boise"})
  {
    UnvisitedOne("boise", {"Ames"});
    HopTo(g, "Boise", ["Ames"], {"Ames"}, "boise", ["Ames", "boise"], {"Ames", "boise"});
  }

  lemma LowerCaseSameName()
    ensures EqualsIgnoreCase("boise", "Boise")
  {
    var a, b := "boise", "Boise";
    assert LowerChar(a[0]) == LowerChar(b[0]);
    assert a[1..] == b[1..];
  }

  /** From the key "Boise" the search never reaches Ames. */
  lemma SpellingRouteBack(g: Adjacency)
    requires GraphInvariant(g) && TwoSpellingsShape(g)
    ensures QueryRoute(g, Some("Boise"), Some("Ames")) == []
  {
    TrimmedName("Ames");
    TrimmedName("Boise");
    QueryStarts(g, "Boise", "Ames");
    SpellingBackHop(g);
    SpellingDeadEnd(g);
  }

  /** Camden's only neighbour is already visited, so the queue runs empty. */
  lemma SpellingDeadEnd(g: Adjacency)
    requires GraphInvariant(g) && TwoSpellingsShape(g)
    ensures Search(g, "Ames", [["Boise", "Camden"]], {"Boise", "Camden"}) == []
  {
    UnvisitedOne("Boise", {"Boise", "Camden"});
    ExtendTwo(["Boise", "Camden"], "Boise", "Boise");
    assert Last(["Boise", "Camden"]) == "Camden";
    Step(g, "Ames", [["Boise", "Camden"]], {"Boise", "Camden"}, [], [], {"Boise", "Camden"});
  }

  lemma SpellingBackHop(g: Adjacency)
    requires GraphInvariant(g) && TwoSpellingsShape(g)
    ensures Search(g, "Ames", [["Boise"]], {"Boise"}) == Search(g, "Ames", [["Boise", "Camden"]], {"Boise", "Camden"})
  {
    UnvisitedOne("Camden", {"Boise"});
    HopTo(g, "Ames", ["Boise"], {"Boise"}, "Camden", ["Boise", "Camden"], {"Boise", "Camden"});
  }

  /**
   * connected is not symmetric once two keys differ only in case:
   * connected("Ames", "Boise") holds through "boise", while
   * connected("Boise", "Ames") does not.
   */
  lemma ConnectedNotSymmetric()
    ensures QueryRoute(TwoSpellings(), Some("Ames"), Some("Boise")) == ["Ames", "boise"]
    ensures QueryRoute(TwoSpellings(), Some("Boise"), Some("Ames")) == []
  {
    var g := TwoSpellings();
    assert TwoSpellingsShape(g);
    SpellingRouteThere(g);
    SpellingRouteBack(g);
  }
}
