# Route manager model

A Dafny model of `RouteManagerImpl`, the in-memory store of bidirectional
connections between cities (endpoints) and its route queries.

- The store is a map from a trimmed endpoint name to its neighbours, kept in
  insertion order.
- `addConnection` validates the two names, trims them and inserts the edge in
  both directions through `addEdge`.
- `connected` and `getRoute` validate and trim the names, then call
  `findRoute`.
- `findRoute` checks that both endpoints exist and runs a breadth-first
  search over a FIFO queue of paths with a visited set. It returns the first
  dequeued path whose last endpoint equals the destination ignoring case.
- The iterator constructor applies `addConnection` to every edge the
  iterator yields. The `Edge` value trims both of its names.

Layout:

- `java_string.dfy` (module `JavaString`): `String.trim` and
  `String.equalsIgnoreCase`.
- `route_graph.dfy` (module `RouteGraph`): the map, `addEdge`,
  `addConnection`, the `Edge` constructor, the iterator fold, and the
  invariant every insertion keeps.
- `route_search.dfy` (module `RouteSearch`): the search as a function of its
  queue and visited set, and the proof that its answer is a shortest route
  without repeats.
- `route_manager.dfy` (module `RouteManagement`): the class
  `RouteManagerImpl`. Its `allNodes` field is updated in place, and its
  search loops are proved against the functions above.
- `scenarios.dfy` (module `Scenarios`): the unit-test scenarios and two
  counterexamples.

Where the documentation and the code disagree, the model follows the code:

- The class comment at `RouteManagerImpl.java:20-24` says the iteration order
  gives the same first route from city1 to city2 and from city2 to city1. The
  test at `RouteManagerImplTest.java:44-53` checks that the route back is the
  route there reversed. The code does not guarantee this in general.
  `Scenarios.RouteBackNotMirrored` shows a four-city cycle where the route back
  is not the reverse of the route there. The promise does hold for a pair
  joined directly when no other case variant of either name is stored
  (`RouteManagement.DirectRoute`). Without that condition, a route is still
  found both ways (`RouteManagement.AddedPairConnected`).
- Names are compared in two different ways:
  - Exactly: the map keys, the neighbour sets and the visited set
    (`containsKey`, `HashSet` and the copy-on-write sets). `isEndPointExist`
    at :190-195 uses an exact `containsKey`, so a destination stored only
    under a different case finds nothing.
  - Ignoring case: the `equalsIgnoreCase` checks in
    `verifyEndPointNameValidity` at :179, in `isEndPointExist` at :192, and
    in the destination test of the search at :132. The search accepts any
    endpoint equal to the destination ignoring case.
  - So `connected` is not symmetric once two keys differ only in case
    (`Scenarios.ConnectedNotSymmetric`).

## Model

| member | source | states |
|---|---|---|
| JavaString.Trim | src/main/java/com/ltx/path/RouteManagerImpl.java:95-96 | the trimmed name is no longer than the input and neither starts nor ends with a character at or below U+0020 |
| JavaString.LeadingBlanks | src/main/java/com/ltx/path/RouteManagerImpl.java:95 | the number of stripped leading characters: all of them are blanks, and the next character is not |
| JavaString.TrailingBlanks | src/main/java/com/ltx/path/RouteManagerImpl.java:96 | the number of stripped trailing characters: all of them are blanks, and the character before them is not |
| JavaString.TrimIsBlankFreeInfix | src/main/java/com/ltx/path/RouteManagerImpl.java:209-210 | trim is the unique infix with only blanks outside it and no blank at its own ends |
| JavaString.TrimIdempotent | src/main/java/com/ltx/path/RouteManagerImpl.java:207-211 | trimming an already trimmed name changes nothing |
| JavaString.LowerChar | src/main/java/com/ltx/path/RouteManagerImpl.java:179 | upper-case ASCII letters move to lower case; every other character is kept |
| JavaString.ToLowerCase | src/main/java/com/ltx/path/RouteManagerImpl.java:179 | same length, each character folded |
| JavaString.EqualsIgnoreCase | src/main/java/com/ltx/path/RouteManagerImpl.java:179 | equalsIgnoreCase holds of two equal names, and only of names of the same length; EqualsIgnoreCaseIffSameLowerCase gives its exact meaning |
| JavaString.EqualsIgnoreCaseIffSameLowerCase | src/main/java/com/ltx/path/RouteManagerImpl.java:179 | two names are equal ignoring case exactly when their lower-case forms are equal |
| JavaString.EqualsIgnoreCaseIsEquivalence | src/main/java/com/ltx/path/RouteManagerImpl.java:132 | equality ignoring case is reflexive, symmetric and transitive |
| RouteGraph.ValidEndPointNames | src/main/java/com/ltx/path/RouteManagerImpl.java:175-182 | verifyEndPointNameValidity rejects a null name on either side, and accepts only names whose trimmed forms differ, so no self-loop can be stored |
| RouteGraph.WithEdge | src/main/java/com/ltx/path/RouteManagerImpl.java:161-168 | addEdge adds nodeOne as a key and nodeTwo as its neighbour and nothing else; other keys keep their neighbour lists; the old list is a prefix of the new one, which is at most one longer (the new neighbour is appended); a missing key gets a one-element list; no duplicate is introduced |
| RouteGraph.Connect | src/main/java/com/ltx/path/RouteManagerImpl.java:90-104 | invalid names leave the map unchanged; valid names add exactly the two trimmed names as keys and exactly the two directed edges between them; earlier neighbour lists are prefixes of the new ones; keys other than the two names are untouched |
| RouteGraph.ConnectPreservesInvariant | src/main/java/com/ltx/path/RouteManagerImpl.java:90-104 | addConnection keeps the map symmetric, free of self-loops (even ignoring case), and keeps every neighbour list non-empty and duplicate-free |
| RouteGraph.WithEdgeKeepsSetsWellFormed | src/main/java/com/ltx/path/RouteManagerImpl.java:161-168 | addEdge keeps neighbour lists non-empty and duplicate-free |
| RouteGraph.ConnectKeepsKeysTrimmed | src/main/java/com/ltx/path/RouteManagerImpl.java:94-98 | every key stays trimmed, because both names are trimmed before insertion |
| RouteGraph.WithEdgePresent | src/main/java/com/ltx/path/RouteManagerImpl.java:167 | adding a neighbour that is already present leaves the map unchanged (the set ignores duplicates) |
| RouteGraph.ConnectIdempotent | src/main/java/com/ltx/path/RouteManagerImpl.java:161-168 | adding the same connection twice has the effect of adding it once |
| RouteGraph.NeighboursAreKeys | src/main/java/com/ltx/path/RouteManagerImpl.java:138 | under the invariant every neighbour is a key, so the search's neighbour lookup never misses |
| RouteGraph.NewEdge | src/main/java/com/ltx/path/RouteManagerImpl.java:207-211 | both names of an Edge are stored trimmed |
| RouteGraph.ConnectEdgeSameAsRawNames | src/main/java/com/ltx/path/RouteManagerImpl.java:207-211 | connecting an Edge's names has the same effect as connecting the raw names, so trimming twice is harmless |
| RouteGraph.ConnectAll | src/main/java/com/ltx/path/RouteManagerImpl.java:43-49 | folding addConnection over the edges keeps the invariant, and two endpoints become adjacent exactly when they were adjacent before or some valid edge joins them |
| RouteGraph.ClosedSetBlocksRoutes | src/main/java/com/ltx/path/RouteManagerImpl.java:128-149 | no path leaves a set of endpoints that is closed under adjacency, so a destination outside it is unreachable |
| RouteGraph.PathStaysIn | src/main/java/com/ltx/path/RouteManagerImpl.java:139-147 | every endpoint of a path that starts in an adjacency-closed set lies in that set |
| RouteSearch.IsEndPointExist | src/main/java/com/ltx/path/RouteManagerImpl.java:190-195 | isEndPointExist fails when either name is not a key (compared exactly), and holds only of two different names |
| RouteSearch.Unvisited | src/main/java/com/ltx/path/RouteManagerImpl.java:139-147 | the inner loop enqueues at most as many endpoints as the current endpoint has neighbours; UnvisitedSpec states which ones |
| RouteSearch.UnvisitedSpec | src/main/java/com/ltx/path/RouteManagerImpl.java:139-147 | the inner loop enqueues only unvisited neighbours, each once, and afterwards every neighbour is visited |
| RouteSearch.UnvisitedStep | src/main/java/com/ltx/path/RouteManagerImpl.java:139-147 | what the inner loop has enqueued so far, followed by what the rest of it enqueues, is what the whole loop enqueues, both when the current neighbour is skipped and when it is enqueued |
| RouteSearch.Extend | src/main/java/com/ltx/path/RouteManagerImpl.java:142-144 | each enqueued path is the current path extended by one neighbour, in neighbour order |
| RouteSearch.ExtendSnoc | src/main/java/com/ltx/path/RouteManagerImpl.java:144 | enqueuing one more extended path appends it to the batch |
| RouteSearch.UnvisitedFrom | src/main/java/com/ltx/path/RouteManagerImpl.java:140-145 | one iteration of the inner loop either skips a visited neighbour or enqueues it and marks it visited |
| RouteSearch.Search | src/main/java/com/ltx/path/RouteManagerImpl.java:128-149 | the while loop returns either nothing or a path that ends at a stored endpoint equal to the destination ignoring case |
| RouteSearch.ExpandStaysInGraph | src/main/java/com/ltx/path/RouteManagerImpl.java:138-147 | the expanded queue still holds only paths ending at keys, the visited set stays within the keys, and it grows whenever something is enqueued |
| RouteSearch.SearchUnfold | src/main/java/com/ltx/path/RouteManagerImpl.java:128-149 | one round of the search either returns the front path, when its end equals the destination ignoring case, or continues from the expanded queue; the termination measure decreases |
| RouteSearch.NextHops | src/main/java/com/ltx/path/RouteManagerImpl.java:143-145 | newly visited endpoints are labelled with the length of the path that reached them; earlier labels are kept |
| RouteSearch.ReachFrontier | src/main/java/com/ltx/path/RouteManagerImpl.java:128-149 | a path from the source runs through settled endpoints until it meets the queue, with hop labels no larger than its own prefix lengths |
| RouteSearch.QueuedLabel | src/main/java/com/ltx/path/RouteManagerImpl.java:128-149 | every queued endpoint's label is the front path's length or one more (the BFS level property) |
| RouteSearch.StillQueued | src/main/java/com/ltx/path/RouteManagerImpl.java:129-144 | an endpoint queued behind the front stays queued after one round |
| RouteSearch.AddedQueued | src/main/java/com/ltx/path/RouteManagerImpl.java:142-144 | every newly enqueued neighbour is queued |
| RouteSearch.QueuedPathKept | src/main/java/com/ltx/path/RouteManagerImpl.java:128-149 | a queued path stays a simple path with correct labels as the visited set grows |
| RouteSearch.QueuedPathExtended | src/main/java/com/ltx/path/RouteManagerImpl.java:142-145 | extending a queued path by an unvisited neighbour gives a simple path with correct labels |
| RouteSearch.StepQueuedPaths | src/main/java/com/ltx/path/RouteManagerImpl.java:128-149 | after one round every queued path is still a simple, correctly labelled path from the source |
| RouteSearch.StepOrdered | src/main/java/com/ltx/path/RouteManagerImpl.java:128-149 | the queue stays ordered by path length, with lengths differing by at most one |
| RouteSearch.StepSettled | src/main/java/com/ltx/path/RouteManagerImpl.java:128-149 | after one round, every visited endpoint that is no longer queued has all its neighbours visited and does not match the destination |
| RouteSearch.StepPreservesInv | src/main/java/com/ltx/path/RouteManagerImpl.java:128-149 | one round of the search preserves the BFS invariant |
| RouteSearch.ExhaustedUnreachable | src/main/java/com/ltx/path/RouteManagerImpl.java:128-152 | when the queue empties, no route to the destination exists |
| RouteSearch.FrontIsShortest | src/main/java/com/ltx/path/RouteManagerImpl.java:132-136 | the first dequeued path that reaches the destination is no longer than any route to it |
| RouteSearch.SearchCorrect | src/main/java/com/ltx/path/RouteManagerImpl.java:128-152 | from any state satisfying the invariant the search returns a shortest route without repeats, or the empty sequence only when no route exists |
| RouteSearch.Route | src/main/java/com/ltx/path/RouteManagerImpl.java:118-153 | findRoute returns an empty route unless both endpoints exist and differ ignoring case; a route it returns ends at a stored endpoint equal to the destination ignoring case |
| RouteSearch.RouteCorrect | src/main/java/com/ltx/path/RouteManagerImpl.java:118-153 | a non-empty result means both endpoints exist and the result is a shortest route from the source to an endpoint equal to the destination ignoring case, without repeats; an empty result when both exist means no route exists |
| RouteManagement.QueryRoute | src/main/java/com/ltx/path/RouteManagerImpl.java:71-80 | getRoute returns an empty route for invalid names; a route it returns starts from a stored name and ends at a stored endpoint equal to the trimmed destination ignoring case |
| RouteManagement.QueryRouteCorrect | src/main/java/com/ltx/path/RouteManagerImpl.java:71-80 | null names, names equal ignoring case and blanks, and unknown names give an empty route; otherwise a route is returned exactly when one exists, and it is shortest and without repeats |
| RouteManagement.AdjacentRoute | src/main/java/com/ltx/path/RouteManagerImpl.java:118-153 | the route between adjacent endpoints is the direct one when the destination has no other case variant among the keys |
| RouteManagement.DirectRoute | src/test/java/com/ltx/path/RouteManagerImplTest.java:97-130 | right after addConnection(city1, city2) the route either way is the direct two-element one, provided no other case variant of either name is stored |
| RouteManagement.AddedPairConnected | src/test/java/com/ltx/path/RouteManagerImplTest.java:97-130 | right after addConnection with valid names, a route is found in both directions, whatever else the store holds |
| RouteManagement.AdjacentFound | src/main/java/com/ltx/path/RouteManagerImpl.java:118-153 | between two adjacent endpoints that differ ignoring case, findRoute finds a route |
| RouteManagement.SpellingStaysUnique | src/main/java/com/ltx/path/RouteManagerImpl.java:94-98 | adding two names that differ ignoring case adds no second case variant of either one |
| RouteManagement.RouteManagerImpl.constructor | src/main/java/com/ltx/path/RouteManagerImpl.java:32-34 | a new store is empty and satisfies the invariant |
| RouteManagement.RouteManagerImpl.FromEdges | src/main/java/com/ltx/path/RouteManagerImpl.java:43-49 | the loop over the iterator leaves the map equal to the fold of addConnection over the edges, with the invariant kept |
| RouteManagement.RouteManagerImpl.Connected | src/main/java/com/ltx/path/RouteManagerImpl.java:57-63 | connected is true exactly when getRoute would return a non-empty route, which is exactly when the names are valid, both trimmed names are keys, and a route exists |
| RouteManagement.RouteManagerImpl.GetRoute | src/main/java/com/ltx/path/RouteManagerImpl.java:71-80 | the result is the validated, trimmed query's route; a non-empty one is shortest and has no repeats |
| RouteManagement.RouteManagerImpl.AddConnection | src/main/java/com/ltx/path/RouteManagerImpl.java:90-104 | the new map is Connect of the old one, so invalid names change nothing, and the invariant and trimmed keys are kept; after valid names, connected holds both ways |
| RouteManagement.RouteManagerImpl.AddEdge | src/main/java/com/ltx/path/RouteManagerImpl.java:161-168 | the new map is the old one with the directed edge added (WithEdge) |
| RouteManagement.RouteManagerImpl.FindRoute | src/main/java/com/ltx/path/RouteManagerImpl.java:118-153 | the loop returns the search function's answer, which is a shortest route without repeats; an empty answer for existing endpoints means no route exists |
| RouteManagement.RouteManagerImpl.EnqueueUnvisited | src/main/java/com/ltx/path/RouteManagerImpl.java:139-147 | the inner loop appends the current path extended by each unvisited neighbour in insertion order, and marks exactly those neighbours visited |
| Scenarios.Chain | src/test/java/com/ltx/path/RouteManagerImplTest.java:20-28 | three addConnection calls from an empty store build the Atlanta–Charlotte–Richmond–Louisville chain, which satisfies the invariant |
| Scenarios.ChainRoute | src/test/java/com/ltx/path/RouteManagerImplTest.java:31-42 | the route from Atlanta to Louisville is Atlanta, Charlotte, Richmond, Louisville |
| Scenarios.ChainReverseRoute | src/test/java/com/ltx/path/RouteManagerImplTest.java:44-53 | the route back is Louisville, Richmond, Charlotte, Atlanta |
| Scenarios.Eastern | src/test/java/com/ltx/path/RouteManagerImplTest.java:177-198 | the chain followed by New York–Boston, Pittsburgh–New York and Pittsburgh–Charlotte, in the route list's order, gives Charlotte the neighbours Atlanta, Richmond, Pittsburgh and keeps the invariant |
| Scenarios.EasternRoute | src/test/java/com/ltx/path/RouteManagerImplTest.java:71-83 | before the growth, the route from Atlanta to Louisville follows the chain; the branch through Pittsburgh does not reach Louisville |
| Scenarios.Grown | src/test/java/com/ltx/path/RouteManagerImplTest.java:84 | adding Louisville–Boston appends Boston to Louisville's neighbours and Louisville to Boston's, and keeps the invariant |
| Scenarios.GrownRoute | src/test/java/com/ltx/path/RouteManagerImplTest.java:71-94 | after Louisville–Boston is added, the route from Atlanta to Boston is the old route followed by Boston, although the route through Pittsburgh and New York has as many stops |
| Scenarios.DetourRoute | src/main/java/com/ltx/path/RouteManagerImpl.java:128-149 | when c gained r before p, the search from a reaches r's neighbour l through c and r |
| Scenarios.TieRoute | src/main/java/com/ltx/path/RouteManagerImpl.java:128-149 | on a tie the search returns the path through the neighbour gained first (r before p), and the rival path through p has the same length |
| Scenarios.TwoParts | src/test/java/com/ltx/path/RouteManagerImplTest.java:20-28 | the chain plus a separate Chicago–St. Louis connection satisfies the invariant |
| Scenarios.TwoPartsNoRoute | src/test/java/com/ltx/path/RouteManagerImplTest.java:57-68 | there is no route between endpoints in different components |
| Scenarios.RejectedQueries | src/test/java/com/ltx/path/RouteManagerImplTest.java:133-173 | null names, empty names, an unknown source or destination, and names equal ignoring case and blanks all give the empty route |
| Scenarios.Square | src/main/java/com/ltx/path/RouteManagerImpl.java:90-104 | four addConnection calls build the Ames–Boise–Detroit–Camden cycle with neighbours in insertion order |
| Scenarios.DiagonalRoute | src/main/java/com/ltx/path/RouteManagerImpl.java:128-149 | between opposite corners of a four-cycle, the route goes through whichever neighbour the start gained first |
| Scenarios.RouteBackNotMirrored | src/main/java/com/ltx/path/RouteManagerImpl.java:20-24 | in the cycle, the route from Ames to Detroit goes through Boise, but the route back goes through Camden and is not its reverse |
| Scenarios.TwoSpellings | src/main/java/com/ltx/path/RouteManagerImpl.java:90-104 | connecting Ames–boise and then Boise–Camden stores "boise" and "Boise" as two keys |
| Scenarios.ConnectedNotSymmetric | src/main/java/com/ltx/path/RouteManagerImpl.java:190-195 | connected(Ames, Boise) holds through "boise", but connected(Boise, Ames) does not |

## Left out

- Concurrency: the store is a single-threaded object. The concurrent map
  and copy-on-write sets, and the window in which only one direction of a
  connection is visible, are not modelled.
- The diagnostic that addConnection prints for invalid names is left out.
  Printing does not change the map.
- `FileRoutesLoader` and `RoutesLoader` (reading and splitting lines of a
  file) are left out because they are file I/O. The iterator is modelled as
  the sequence of edges it yields. `RoutesLoader.remove` only throws.
- `Main` is not part of this model.
- JavaString.LowerChar: equalsIgnoreCase is modelled as an ASCII case fold.
  Java's full Unicode case folding, such as the Greek final sigma or the
  Kelvin sign, is not modelled.
- A null city name is `Option.None`. A null `Edge`, or an `Edge` built from
  null names, which throws NullPointerException in Java, is not modelled.
- The scenarios use graphs built in the same way as the test fixture, but
  smaller than its full 29-edge route list: the four-city chain, the chain
  with the detour Charlotte–Pittsburgh–New York–Boston, its growth by
  Louisville–Boston, and a second component. Atlanta's other neighbours
  (New Orleans, Miami) and the rest of the northeast are absent. Traced by
  hand on the full list, they do not change which route is returned, but
  the model does not prove this. The test's Omaha query is modelled as a
  query between two components.
- RouteManagement.DirectRoute: it requires that neither name already has
  another case variant among the keys. Without that, the direct route can
  end at the other variant. A route is still found both ways
  (RouteManagement.AddedPairConnected).
