/**
 * findRoute: the breadth-first search over a FIFO queue of paths with a
 * visited set, stated as a function of the queue and the visited set, and
 * the proof that the first path it returns is a shortest route.
 */
module RouteSearch {
  import opened JavaString
  import opened RouteGraph

  /**
   * isEndPointExist: source and destination differ ignoring case and both
   * are keys of the map (compared exactly).
   */
  predicate IsEndPointExist(adj: Adjacency, source: string, destination: string): (r: bool)
    ensures source !in adj || destination !in adj ==> !r
    ensures r ==> source != destination
  {
    !EqualsIgnoreCase(source, destination) && source in adj && destination in adj
  }

  /**
   * The neighbours in nbrs that the inner loop of findRoute enqueues when
   * it starts from the visited set `visited`: those not yet visited, in
   * neighbour order, each once.
   */
  function Unvisited(nbrs: seq<string>, visited: set<string>): (r: seq<string>)
    ensures |r| <= |nbrs|
    decreases |nbrs|
  {
    if nbrs == [] then []
    else if nbrs[0] in visited then Unvisited(nbrs[1..], visited)
    else [nbrs[0]] + Unvisited(nbrs[1..], visited + {nbrs[0]})
  }

  /**
   * What the inner loop enqueues: unvisited neighbours only, each once,
   * and afterwards every neighbour is visited.
   */
  lemma {:induction false} UnvisitedSpec(nbrs: seq<string>, visited: set<string>)
    ensures var r := Unvisited(nbrs, visited);
      && (forall k :: 0 <= k < |r| ==> r[k] in nbrs && r[k] !in visited)
      && Distinct(r)
      && (forall k :: 0 <= k < |nbrs| ==> nbrs[k] in visited || nbrs[k] in r)
    decreases |nbrs|
  {
    if nbrs != [] {
      if nbrs[0] in visited {
        UnvisitedSpec(nbrs[1..], visited);
      } else {
        UnvisitedSpec(nbrs[1..], visited + {nbrs[0]});
      }
    }
  }

  /** The copies of path, each extended by one of ws. */
  function Extend(path: seq<string>, ws: seq<string>): (r: seq<seq<string>>)
    ensures |r| == |ws|
    ensures forall k :: 0 <= k < |ws| ==> r[k] == path + [ws[k]]
  {
    seq(|ws|, k requires 0 <= k < |ws| => path + [ws[k]])
  }

  /** Enqueuing one more extended path. */
  lemma ExtendSnoc(path: seq<string>, ws: seq<string>, w: string)
    ensures Extend(path, ws + [w]) == Extend(path, ws) + [path + [w]]
  {
    var l, r := Extend(path, ws + [w]), Extend(path, ws) + [path + [w]];
    assert |l| == |r|;
    forall k | 0 <= k < |l| ensures l[k] == r[k] {
      if k < |ws| {
        assert (ws + [w])[k] == ws[k];
      }
    }
  }

  /** One step of the inner loop of findRoute over the neighbours from position i. */
  lemma UnvisitedFrom(nbrs: seq<string>, i: nat, visited: set<string>)
    requires i < |nbrs|
    ensures Unvisited(nbrs[i..], visited) ==
      if nbrs[i] in visited then Unvisited(nbrs[i + 1..], visited)
      else [nbrs[i]] + Unvisited(nbrs[i + 1..], visited + {nbrs[i]})
  {
    assert nbrs[i..][1..] == nbrs[i + 1..];
  }

  /**
   * The inner loop's bookkeeping for the neighbour at position i: the names
   * enqueued so far followed by what the rest of the loop enqueues are what
   * the whole loop enqueues, before and after this neighbour is handled.
   */
  lemma UnvisitedStep(nbrs: seq<string>, i: nat, visited: set<string>, added: seq<string>, now: set<string>)
    requires i < |nbrs|
    requires added + Unvisited(nbrs[i..], now) == Unvisited(nbrs, visited)
    ensures nbrs[i] in now ==> added + Unvisited(nbrs[i + 1..], now) == Unvisited(nbrs, visited)
    ensures nbrs[i] !in now ==>
      (added + [nbrs[i]]) + Unvisited(nbrs[i + 1..], now + {nbrs[i]}) == Unvisited(nbrs, visited)
  {
    UnvisitedFrom(nbrs, i, now);
    if nbrs[i] !in now {
      var rest := Unvisited(nbrs[i + 1..], now + {nbrs[i]});
      assert (added + [nbrs[i]]) + rest == added + ([nbrs[i]] + rest);
    }
  }

  function Elems(ws: seq<string>): set<string> {
    set w | w in ws
  }

  lemma ElemsSnoc(ws: seq<string>, w: string)
    ensures Elems(ws + [w]) == Elems(ws) + {w}
  {
  }

  /** Every queued path ends at a key of the map. */
  predicate QueueInGraph(adj: Adjacency, queue: seq<seq<string>>) {
    forall i :: 0 <= i < |queue| ==> queue[i] != [] && Last(queue[i]) in adj
  }

  /**
   * The search loop of findRoute from a given queue and visited set: take
   * the first path; if it ends at the destination (ignoring case) it is the
   * answer, otherwise enqueue it extended by each unvisited neighbour of its
   * last endpoint and mark those visited; an empty queue means no route.
   */
  function Search(adj: Adjacency, dst: string, queue: seq<seq<string>>, visited: set<string>): (r: seq<string>)
    requires GraphInvariant(adj)
    requires visited <= adj.Keys
    requires QueueInGraph(adj, queue)
    ensures r != [] ==> Last(r) in adj && EqualsIgnoreCase(Last(r), dst)
    decreases |adj.Keys - visited|, |queue|
  {
    if queue == [] then []
    else
      var path := queue[0];
      var current := Last(path);
      if EqualsIgnoreCase(current, dst) then path
      else
        var added := Unvisited(adj[current], visited);
        var queue' := queue[1..] + Extend(path, added);
        var visited' := visited + Elems(added);
        UnvisitedSpec(adj[current], visited);
        NeighboursAreKeys(adj, current);
        ExpandStaysInGraph(adj, queue, visited, added);
        Search(adj, dst, queue', visited')
  }

  /**
   * One round of the search keeps the queue inside the graph, and either
   * visits a new endpoint or shortens the queue: that is why it terminates.
   */
  lemma ExpandStaysInGraph(adj: Adjacency, queue: seq<seq<string>>, visited: set<string>, added: seq<string>)
    requires queue != [] && QueueInGraph(adj, queue) && visited <= adj.Keys
    requires forall k :: 0 <= k < |added| ==> added[k] in adj && added[k] !in visited
    ensures QueueInGraph(adj, queue[1..] + Extend(queue[0], added))
    ensures visited + Elems(added) <= adj.Keys
    ensures added != [] ==> |adj.Keys - (visited + Elems(added))| < |adj.Keys - visited|
  {
    var next := queue[1..] + Extend(queue[0], added);
    forall i | 0 <= i < |next| ensures next[i] != [] && Last(next[i]) in adj {
      if i >= |queue| - 1 {
        assert next[i] == queue[0] + [added[i - |queue| + 1]];
      } else {
        assert next[i] == queue[i + 1];
      }
    }
    if added != [] {
      var before, after := adj.Keys - visited, adj.Keys - (visited + Elems(added));
      assert added[0] in before - after;
      assert after < before;
    }
  }

  /** One round of Search, unfolded: the answer is the front path or the answer from the next state. */
  lemma SearchUnfold(adj: Adjacency, dst: string, queue: seq<seq<string>>, visited: set<string>)
    requires GraphInvariant(adj) && visited <= adj.Keys && QueueInGraph(adj, queue) && queue != []
    ensures var path := queue[0];
      var added := Unvisited(adj[Last(path)], visited);
      && QueueInGraph(adj, queue[1..] + Extend(path, added))
      && visited + Elems(added) <= adj.Keys
      && (|adj.Keys - (visited + Elems(added))| < |adj.Keys - visited|
          || (visited + Elems(added) == visited && |queue[1..] + Extend(path, added)| < |queue|))
      && Search(adj, dst, queue, visited) ==
         if EqualsIgnoreCase(Last(path), dst) then path
         else Search(adj, dst, queue[1..] + Extend(path, added), visited + Elems(added))
  {
    var path := queue[0];
    UnvisitedSpec(adj[Last(path)], visited);
    NeighboursAreKeys(adj, Last(path));
    ExpandStaysInGraph(adj, queue, visited, Unvisited(adj[Last(path)], visited));
  }

  /** findRoute(city1, city2) on already trimmed names. */
  function Route(adj: Adjacency, src: string, dst: string): (r: seq<string>)
    requires GraphInvariant(adj)
    ensures !IsEndPointExist(adj, src, dst) ==> r == []
    ensures r != [] ==> Last(r) in adj && EqualsIgnoreCase(Last(r), dst)
  {
    if IsEndPointExist(adj, src, dst) then Search(adj, dst, [[src]], {src}) else []
  }

  // ---------------------------------------------------------------------
  // Correctness of the search. The ghost map `hops` records, for every
  // visited endpoint, the number of endpoints on the path by which it was
  // first reached.

  ghost predicate InQueue(queue: seq<seq<string>>, u: string) {
    exists i :: 0 <= i < |queue| && queue[i] != [] && Last(queue[i]) == u
  }

  /** A queued path: a simple path from src through visited endpoints, labelled by its length. */
  ghost predicate QueuedPath(adj: Adjacency, src: string, p: seq<string>, visited: set<string>, hops: map<string, nat>) {
    && IsPath(adj, p) && p[0] == src && Distinct(p)
    && (forall k :: 0 <= k < |p| ==> p[k] in visited)
    && Last(p) in hops && hops[Last(p)] == |p|
  }

  /**
   * A visited endpoint no longer at the end of a queued path: it is not the
   * destination, it was reached no later than the front of the queue, and
   * its neighbours are all visited, reached at most one hop after it.
   */
  ghost predicate Settled(adj: Adjacency, dst: string, queue: seq<seq<string>>, hops: map<string, nat>, u: string) {
    && u in adj && u in hops
    && !EqualsIgnoreCase(u, dst)
    && (queue != [] ==> hops[u] <= |queue[0]|)
    && (forall w :: w in adj[u] ==> w in hops && hops[w] <= hops[u] + 1)
  }

  /** Queued paths are in non-decreasing length order, at most one apart, and end at distinct endpoints. */
  ghost predicate QueueOrdered(queue: seq<seq<string>>) {
    && (forall i :: 0 <= i < |queue| ==> queue[i] != [])
    && (forall i, j :: 0 <= i < j < |queue| ==> |queue[i]| <= |queue[j]| && Last(queue[i]) != Last(queue[j]))
    && (queue != [] ==> |queue[|queue| - 1]| <= |queue[0]| + 1)
  }

  /** Every visited endpoint that no queued path ends at is settled. */
  ghost predicate AllSettled(adj: Adjacency, dst: string, queue: seq<seq<string>>, visited: set<string>, hops: map<string, nat>) {
    forall u :: u in visited && !InQueue(queue, u) ==> Settled(adj, dst, queue, hops, u)
  }

  ghost predicate SearchInv(adj: Adjacency, src: string, dst: string, queue: seq<seq<string>>,
                            visited: set<string>, hops: map<string, nat>) {
    && GraphInvariant(adj)
    && visited <= adj.Keys && hops.Keys == visited
    && src in visited && hops[src] == 1
    && (forall i :: 0 <= i < |queue| ==> QueuedPath(adj, src, queue[i], visited, hops))
    && QueueOrdered(queue)
    && AllSettled(adj, dst, queue, visited, hops)
  }

  /**
   * Walking along any path from src, every endpoint is settled until the
   * first one that ends a queued path; each is labelled with at most its
   * position plus one.
   */
  lemma {:induction false} ReachFrontier(adj: Adjacency, src: string, dst: string, queue: seq<seq<string>>,
                                         visited: set<string>, hops: map<string, nat>, p: seq<string>)
    returns (k: nat)
    requires src in visited && hops.Keys == visited && hops[src] == 1
    requires AllSettled(adj, dst, queue, visited, hops)
    requires IsPath(adj, p) && p[0] == src
    ensures k <= |p|
    ensures forall i :: 0 <= i < k ==> p[i] in visited && !InQueue(queue, p[i]) && hops[p[i]] <= i + 1
    ensures k < |p| ==> p[k] in visited && InQueue(queue, p[k]) && hops[p[k]] <= k + 1
    decreases |p|
  {
    if |p| == 1 {
      k := if InQueue(queue, src) then 0 else 1;
    } else {
      var q := p[..|p| - 1];
      assert IsPath(adj, q) by {
        forall i | 0 <= i < |q| - 1 ensures Adjacent(adj, q[i], q[i + 1]) {
          assert q[i] == p[i] && q[i + 1] == p[i + 1];
        }
      }
      k := ReachFrontier(adj, src, dst, queue, visited, hops, q);
      if k == |q| {
        var u := p[|p| - 2];
        assert Adjacent(adj, u, p[|p| - 1]);
        assert q[|q| - 1] == u;
        assert Settled(adj, dst, queue, hops, u);
        if !InQueue(queue, p[|p| - 1]) {
          k := |p|;
        }
      }
    }
  }

  /** Label of the endpoint that ends the i-th queued path. */
  lemma QueuedLabel(adj: Adjacency, src: string, dst: string, queue: seq<seq<string>>,
                    visited: set<string>, hops: map<string, nat>, u: string)
    requires SearchInv(adj, src, dst, queue, visited, hops)
    requires InQueue(queue, u)
    ensures u in hops && |queue[0]| <= hops[u] <= |queue[0]| + 1
  {
    var i :| 0 <= i < |queue| && queue[i] != [] && Last(queue[i]) == u;
    assert QueuedPath(adj, src, queue[i], visited, hops);
    if i > 0 {
      assert |queue[0]| <= |queue[i]| <= |queue[|queue| - 1]|;
    }
  }

  /** The hop counts after one round: newly visited endpoints are one hop beyond the dequeued path. */
  function NextHops(hops: map<string, nat>, visited: set<string>, added: seq<string>, n: nat): (r: map<string, nat>)
    requires hops.Keys == visited
    ensures r.Keys == visited + Elems(added)
    ensures forall w :: w in visited ==> r[w] == hops[w]
    ensures forall w :: w in added && w !in visited ==> r[w] == n
  {
    map w | w in visited + Elems(added) :: if w in visited then hops[w] else n
  }

  /** An endpoint still queued after a round that is not the one just dequeued was queued before it. */
  lemma StillQueued(queue: seq<seq<string>>, added: seq<string>, x: string)
    requires queue != [] && queue[0] != []
    requires InQueue(queue, x) && x != Last(queue[0])
    ensures InQueue(queue[1..] + Extend(queue[0], added), x)
  {
    var next := queue[1..] + Extend(queue[0], added);
    var i :| 0 <= i < |queue| && queue[i] != [] && Last(queue[i]) == x;
    assert i > 0;
    assert next[i - 1] == queue[i];
  }

  /** Every newly visited endpoint ends a queued path after the round. */
  lemma AddedQueued(queue: seq<seq<string>>, added: seq<string>, k: nat)
    requires queue != [] && k < |added|
    ensures InQueue(queue[1..] + Extend(queue[0], added), added[k])
  {
    var next := queue[1..] + Extend(queue[0], added);
    assert next[|queue| - 1 + k] == queue[0] + [added[k]];
  }

  /** A queued path stays queued-shaped when the visited set grows and old hop counts are kept. */
  lemma QueuedPathKept(adj: Adjacency, src: string, p: seq<string>, visited: set<string>, hops: map<string, nat>,
                       visited': set<string>, hops': map<string, nat>)
    requires QueuedPath(adj, src, p, visited, hops)
    requires visited <= visited' && hops.Keys == visited
    requires forall w :: w in visited ==> w in hops' && hops'[w] == hops[w]
    ensures QueuedPath(adj, src, p, visited', hops')
  {
  }

  /** Extending a queued path by an unvisited neighbour of its end gives a queued path one hop longer. */
  lemma QueuedPathExtended(adj: Adjacency, src: string, path: seq<string>, w: string, visited: set<string>,
                           hops: map<string, nat>, visited': set<string>, hops': map<string, nat>)
    requires QueuedPath(adj, src, path, visited, hops)
    requires Adjacent(adj, Last(path), w) && w !in visited
    requires visited + {w} <= visited' && w in hops' && hops'[w] == |path| + 1
    ensures QueuedPath(adj, src, path + [w], visited', hops')
  {
    var p := path + [w];
    assert IsPath(adj, p) by {
      forall k | 0 <= k < |p| - 1 ensures Adjacent(adj, p[k], p[k + 1]) {
        if k < |path| - 1 {
          assert p[k] == path[k] && p[k + 1] == path[k + 1];
        }
      }
    }
    assert Distinct(p) by {
      forall a, b | 0 <= a < b < |p| ensures p[a] != p[b] {
        if b < |path| {
          assert p[a] == path[a] && p[b] == path[b];
        } else {
          assert p[a] == path[a] && path[a] in visited;
        }
      }
    }
  }

  lemma StepQueuedPaths(adj: Adjacency, src: string, queue: seq<seq<string>>, visited: set<string>,
                        hops: map<string, nat>, added: seq<string>)
    requires queue != [] && queue[0] != [] && hops.Keys == visited
    requires forall i :: 0 <= i < |queue| ==> QueuedPath(adj, src, queue[i], visited, hops)
    requires forall k :: 0 <= k < |added| ==> Adjacent(adj, Last(queue[0]), added[k]) && added[k] !in visited
    ensures var next := queue[1..] + Extend(queue[0], added);
      var visited' := visited + Elems(added);
      var hops' := NextHops(hops, visited, added, |queue[0]| + 1);
      forall i :: 0 <= i < |next| ==> QueuedPath(adj, src, next[i], visited', hops')
  {
    var path := queue[0];
    var next := queue[1..] + Extend(path, added);
    var visited' := visited + Elems(added);
    var hops' := NextHops(hops, visited, added, |path| + 1);
    forall i | 0 <= i < |next| ensures QueuedPath(adj, src, next[i], visited', hops') {
      if i < |queue| - 1 {
        assert next[i] == queue[i + 1];
        QueuedPathKept(adj, src, queue[i + 1], visited, hops, visited', hops');
      } else {
        var w := added[i - |queue| + 1];
        assert next[i] == path + [w];
        QueuedPathExtended(adj, src, path, w, visited, hops, visited', hops');
      }
    }
  }

  lemma StepOrdered(queue: seq<seq<string>>, visited: set<string>, added: seq<string>)
    requires queue != [] && QueueOrdered(queue)
    requires forall i :: 0 <= i < |queue| ==> Last(queue[i]) in visited
    requires forall k :: 0 <= k < |added| ==> added[k] !in visited
    requires Distinct(added)
    ensures QueueOrdered(queue[1..] + Extend(queue[0], added))
  {
    var path := queue[0];
    var next := queue[1..] + Extend(path, added);
    var m := |queue| - 1;
    forall i, j | 0 <= i < j < |next| ensures |next[i]| <= |next[j]| && Last(next[i]) != Last(next[j]) {
      if j < m {
        assert next[i] == queue[i + 1] && next[j] == queue[j + 1];
      } else if i < m {
        assert next[i] == queue[i + 1];
        assert next[j] == path + [added[j - m]];
        assert |queue[i + 1]| <= |queue[m]| <= |path| + 1;
      } else {
        assert next[i] == path + [added[i - m]];
        assert next[j] == path + [added[j - m]];
      }
    }
    forall i | 0 <= i < |next| ensures next[i] != [] {
      if i < m {
        assert next[i] == queue[i + 1];
      } else {
        assert next[i] == path + [added[i - m]];
      }
    }
    if next != [] {
      var z := |next| - 1;
      if m > 0 {
        assert next[0] == queue[1];
        if z < m {
          assert next[z] == queue[m];
        } else {
          assert next[z] == path + [added[z - m]];
        }
      } else {
        assert next[0] == path + [added[0]];
        assert next[z] == path + [added[z]];
      }
    }
  }

  lemma StepSettled(adj: Adjacency, src: string, dst: string, queue: seq<seq<string>>,
                    visited: set<string>, hops: map<string, nat>)
    requires SearchInv(adj, src, dst, queue, visited, hops) && queue != []
    requires !EqualsIgnoreCase(Last(queue[0]), dst)
    ensures var path := queue[0];
      var added := Unvisited(adj[Last(path)], visited);
      AllSettled(adj, dst, queue[1..] + Extend(path, added), visited + Elems(added),
                 NextHops(hops, visited, added, |path| + 1))
  {
    var path := queue[0];
    var u := Last(path);
    var added := Unvisited(adj[u], visited);
    UnvisitedSpec(adj[u], visited);
    var next := queue[1..] + Extend(path, added);
    var visited' := visited + Elems(added);
    var hops' := NextHops(hops, visited, added, |path| + 1);
    assert QueuedPath(adj, src, path, visited, hops);
    // The front of the queue does not get shorter.
    assert next != [] ==> |path| <= |next[0]| by {
      if next != [] && |queue| > 1 {
        assert next[0] == queue[1];
      }
    }
    NeighboursAreKeys(adj, u);
    forall x | x in visited' && !InQueue(next, x) ensures Settled(adj, dst, next, hops', x) {
      if x !in visited {
        var k :| 0 <= k < |added| && added[k] == x;
        AddedQueued(queue, added, k);
      } else if x == u {
        forall w | w in adj[u] ensures w in hops' && hops'[w] <= hops'[u] + 1 {
          if w in visited {
            if InQueue(queue, w) {
              QueuedLabel(adj, src, dst, queue, visited, hops, w);
            } else {
              assert Settled(adj, dst, queue, hops, w);
            }
          }
        }
      } else {
        if InQueue(queue, x) {
          StillQueued(queue, added, x);
        }
        assert Settled(adj, dst, queue, hops, x);
      }
    }
  }

  /** One round of the search preserves the invariant, with the newly visited endpoints one hop beyond the dequeued path. */
  lemma StepPreservesInv(adj: Adjacency, src: string, dst: string, queue: seq<seq<string>>,
                         visited: set<string>, hops: map<string, nat>)
    requires SearchInv(adj, src, dst, queue, visited, hops) && queue != []
    requires !EqualsIgnoreCase(Last(queue[0]), dst)
    ensures var path := queue[0];
      var added := Unvisited(adj[Last(path)], visited);
      SearchInv(adj, src, dst, queue[1..] + Extend(path, added), visited + Elems(added),
                NextHops(hops, visited, added, |path| + 1))
  {
    var path := queue[0];
    var u := Last(path);
    var added := Unvisited(adj[u], visited);
    UnvisitedSpec(adj[u], visited);
    NeighboursAreKeys(adj, u);
    forall k | 0 <= k < |added| ensures Adjacent(adj, u, added[k]) && added[k] !in visited {
    }
    StepQueuedPaths(adj, src, queue, visited, hops, added);
    forall i | 0 <= i < |queue| ensures Last(queue[i]) in visited {
      assert QueuedPath(adj, src, queue[i], visited, hops);
    }
    StepOrdered(queue, visited, added);
    StepSettled(adj, src, dst, queue, visited, hops);
  }

  /** Once the queue is empty, no path from src reaches dst. */
  lemma ExhaustedUnreachable(adj: Adjacency, src: string, dst: string, visited: set<string>, hops: map<string, nat>)
    requires SearchInv(adj, src, dst, [], visited, hops)
    ensures !Reachable(adj, src, dst)
  {
    forall p | IsPath(adj, p) && p[0] == src ensures !EqualsIgnoreCase(Last(p), dst) {
      var k := ReachFrontier(adj, src, dst, [], visited, hops, p);
      assert k == |p|;
      assert Settled(adj, dst, [], hops, p[|p| - 1]);
    }
  }

  /** When the front of the queue ends at dst, no route to dst is shorter. */
  lemma FrontIsShortest(adj: Adjacency, src: string, dst: string, queue: seq<seq<string>>,
                        visited: set<string>, hops: map<string, nat>)
    requires SearchInv(adj, src, dst, queue, visited, hops)
    requires queue != [] && queue[0] != [] && EqualsIgnoreCase(Last(queue[0]), dst)
    ensures forall p | Leads(adj, src, dst, p) :: |queue[0]| <= |p|
  {
    forall p | Leads(adj, src, dst, p) ensures |queue[0]| <= |p| {
      var k := ReachFrontier(adj, src, dst, queue, visited, hops, p);
      assert k < |p|;
      QueuedLabel(adj, src, dst, queue, visited, hops, p[k]);
    }
  }

  /**
   * From any state satisfying the invariant the search returns either a
   * shortest simple route from src to dst or, when there is none, the
   * empty sequence.
   */
  lemma {:induction false} SearchCorrect(adj: Adjacency, src: string, dst: string, queue: seq<seq<string>>,
                                         visited: set<string>, hops: map<string, nat>)
    requires SearchInv(adj, src, dst, queue, visited, hops)
    ensures QueueInGraph(adj, queue)
    ensures var r := Search(adj, dst, queue, visited);
      && (r != [] ==> Shortest(adj, src, dst, r) && Distinct(r))
      && (r == [] ==> !Reachable(adj, src, dst))
    decreases |adj.Keys - visited|, |queue|
  {
    forall i | 0 <= i < |queue| ensures queue[i] != [] && Last(queue[i]) in adj {
      assert QueuedPath(adj, src, queue[i], visited, hops);
    }
    if queue == [] {
      ExhaustedUnreachable(adj, src, dst, visited, hops);
    } else {
      var path := queue[0];
      var u := Last(path);
      assert QueuedPath(adj, src, path, visited, hops);
      if EqualsIgnoreCase(u, dst) {
        FrontIsShortest(adj, src, dst, queue, visited, hops);
      } else {
        var added := Unvisited(adj[u], visited);
        StepPreservesInv(adj, src, dst, queue, visited, hops);
        UnvisitedSpec(adj[u], visited);
        NeighboursAreKeys(adj, u);
        ExpandStaysInGraph(adj, queue, visited, added);
        SearchCorrect(adj, src, dst, queue[1..] + Extend(path, added), visited + Elems(added),
                      NextHops(hops, visited, added, |path| + 1));
      }
    }
  }

  /**
   * findRoute's contract: a non-empty result is a shortest route without
   * repeated endpoints; an empty result means the endpoints failed the
   * existence check or no route exists.
   */
  lemma RouteCorrect(adj: Adjacency, src: string, dst: string)
    requires GraphInvariant(adj)
    ensures var r := Route(adj, src, dst);
      && (r != [] ==> IsEndPointExist(adj, src, dst) && Shortest(adj, src, dst, r) && Distinct(r))
      && (r == [] && IsEndPointExist(adj, src, dst) ==> !Reachable(adj, src, dst))
  {
    if IsEndPointExist(adj, src, dst) {
      var hops := map[src := 1];
      assert QueuedPath(adj, src, [src], {src}, hops);
      var queue := [[src]];
      assert queue[0] != [] && Last(queue[0]) == src;
      assert InQueue(queue, src);
      SearchCorrect(adj, src, dst, [[src]], {src}, hops);
    }
  }
}
