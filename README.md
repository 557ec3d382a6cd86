# Route computation of the campus-navigation prototypes, in Dafny

The repository builds shortest walking routes over an OpenStreetMap graph.
Several generations of prototypes share one core, and this project models
that core and proves properties of it:

- **Dijkstra with lazy deletion** (module `Search`). A `distances` map, a
  `predecessors` map and a binary heap of `State { cost, node }`. Each
  pop first checks for the destination, then for a stale entry. Every
  other entry is expanded with strict-improvement relaxation.
  `reconstruct_path` (module `Reconstruct`) walks the predecessor links
  back from the destination.
  - The integer prototypes (v0, hello_world; module `FileSearch`) read
    `u v w` edge lines (module `EdgeFile`, on `Tokens` and `Decimal`).
    Their `State` order is coherent, so the heap pops an entry of least
    cost first (min-first).
  - The store-backed prototypes (v2, v4, the `get-shortest-path` lambdas;
    module `StoreSearch`) fetch neighbour rows by id and weigh hops by
    geodesic distance. Their `cmp` and `partial_cmp` disagree (module
    `StateOrder`), so the model assumes no order of popping there.
    `BinaryHeap` sifts with `<=` and `>=`, which go through the unreversed
    `partial_cmp`, so these variants pop the costliest entry first. The
    first pop of the destination therefore need not happen at its shortest
    distance.
- **Waypoints to nodes.**
  - `get_shortest_path` resolves both waypoints to nodes (module `Route`).
  - `get_shortest_path_multiple` stitches one search per consecutive pair
    of waypoints (module `Stitch`) and deduplicates the junctions.
  - The lambdas narrow the route's ids to `i32` (module `Narrow`).
- **Store layers** (module `Resolve`).
  - `find_closest_node` is a first-wins argmin over the candidate rows.
  - `query_nodes_by_id` and `get_adjacency_nodes_from_id` look up ids;
    both are specified by the order-keeping filter of module `FilterMaps`.
- **v5's route-deviation check** (module `Deviation`). The check parses the
  user's JSON location and route and applies the distance-sum test to each
  segment of the route.
- **The Python OSM import handler** (module `Osm`). A class whose `node`,
  `way` and `relation` methods fill the node dictionary, make consecutive
  refs of a way adjacent, and record the ways and relations.

The search engine `Search.Dijkstra` is written once. An expansion function
`Id -> Expansion` makes it serve every prototype. The expansion of a node
yields its hops, skips the node (v0's logged lookup error), or aborts
(an `unwrap` panic).

Termination needs no fuel and no `decreases *`:

- A ghost finite `universe` holds every node the graph can reach.
- Every improvement lowers the node's distance below its previous value
  (`i32::MAX` or `f64::MAX` when unseen). The set of (node, distance)
  pairs still below those values therefore shrinks.
- Predecessor chains carry a ghost rank (distance and time of the last
  improvement) that descends along every link. That ranking is what makes
  `reconstruct_path` terminate.

Things the model takes as parameters:

- I/O: the PostgreSQL/PostGIS queries, DynamoDB, files and HTTP. Query
  results, file lines and store contents are passed in as values.
- Geodesic distance: an abstract function that returns metres or the
  library's error. The store searches weigh hops by it and panic on its
  error, as `get_distance`'s `unwrap` does. Their weights are
  non-negative `nat`s. Closest-node selection and the deviation check
  use the same kind of function.
- The per-segment search of the stitching code.

## Model

| member | source | states |
|---|---|---|
| `Decimal.Show` | osm_parser.py:29-30 | `str(n)` starts with '-' exactly when `n` is negative, and the rest is all digits |
| `Decimal.ParseInt` | hello_world/src/database/graph_edges_parser.rs:76 | a token yields a value iff it is an optional sign followed by at least one digit; the value is those digits' value, negated after '-' |
| `Decimal.ShowNat` | osm_parser.py:29-30 | the decimal text of a natural number is non-empty, all digits, and has no leading zero |
| `Decimal.ParseI32` | hello_world/src/database/graph_edges_parser.rs:76 | `parse::<i32>()` only ever yields a value inside the `i32` range |
| `Decimal.DigitsValueOfShowNat` | osm_parser.py:29-30 | the digits of `str(n)` read back as `n` |
| `Decimal.ParseI32OfShow` | hello_world/src/database/graph_edges_parser.rs:76 | the decimal text of every `i32` parses back to that number (round trip) |
| `Decimal.ParseI32RejectsNonDigit` | hello_world/src/database/graph_edges_parser.rs:76 | a token with a non-digit past its first character never parses |
| `Decimal.ShowNatInjective` | osm_parser.py:29-30 | different naturals have different decimal text |
| `Decimal.ShowInjective` | osm_parser.py:29-30 | different integers have different `str` keys, so node keys never collide |
| `Tokens.WordLen` | hello_world/src/database/graph_edges_parser.rs:76 | the leading token of a string is its maximal non-whitespace prefix |
| `Tokens.Split` | hello_world/src/database/graph_edges_parser.rs:76 | `split_whitespace` yields only non-empty tokens free of whitespace |
| `Tokens.WordLenOfWord` | hello_world/src/database/graph_edges_parser.rs:76 | a word followed by whitespace or the end has exactly its own length as leading token |
| `Tokens.SplitWordFirst` | hello_world/src/database/graph_edges_parser.rs:76 | a word followed by whitespace or the end is split off as the first token |
| `Tokens.SplitSkipsSpace` | hello_world/src/database/graph_edges_parser.rs:76 | a leading whitespace character of any kind (`char::is_whitespace`) produces no token |
| `Tokens.SplitOneWord` | hello_world/src/database/graph_edges_parser.rs:76 | a single word splits into exactly itself |
| `Tokens.SplitSpaceThen` | hello_world/src/database/graph_edges_parser.rs:76 | a word, a space and a rest split into the word followed by the rest's tokens |
| `Tokens.SplitThreeWords` | hello_world/src/database/graph_edges_parser.rs:76 | `a b c` with single spaces splits into exactly `[a, b, c]` |
| `EdgeFile.LineEdges` | hello_world/src/database/graph_edges_parser.rs:82-87 | every edge a line contributes leaves `node` and carries the line's weight |
| `EdgeFile.Then` | hello_world/src/database/graph_edges_parser.rs:74-91 | joining two partial reads succeeds iff both succeed, and then concatenates their edges in order |
| `EdgeFile.ThenAssoc` | hello_world/src/database/graph_edges_parser.rs:74-91 | joining reads is associative, so the line order alone fixes the result |
| `EdgeFile.GetAdjacencyNodesFromFile` | hello_world/src/database/graph_edges_parser.rs:70-95 | the loop returns `Ok(empty)` for an unopenable file and otherwise the specified edges of all lines in line order, or the panic of the first bad line |
| `EdgeFile.PushLineEdges` | hello_world/src/database/graph_edges_parser.rs:75-89 | one line's body pushes exactly the line's contribution after the edges already read, or panics where the line's `unwrap` does |
| `EdgeFile.ParseAllMeaning` | hello_world/src/database/graph_edges_parser.rs:76 | `collect` fails iff some token does not parse, and otherwise holds every token's value in order |
| `EdgeFile.ParseLineTriple` | hello_world/src/database/graph_edges_parser.rs:76-77 | a line yields a triple iff it has exactly three tokens and all are `i32`s, and the triple is their values |
| `EdgeFile.LineEdgesMembership` | hello_world/src/database/graph_edges_parser.rs:82-87 | an edge is contributed iff it is `node→v` with `u == node` or `node→u` with `v == node`, with the line's weight |
| `EdgeFile.SelfLoopTwice` | v1/src/database.rs:38-43 | a self-loop `node node w` yields the edge `node→node` twice |
| `EdgeFile.EdgesOfAppend` | hello_world/src/database/graph_edges_parser.rs:74-91 | reading `a` then `b` gives `a`'s edges followed by `b`'s, and a panic if either panics |
| `EdgeFile.PanicPersists` | hello_world/src/database/graph_edges_parser.rs:76 | once a prefix of the file has panicked, no later line can undo it |
| `EdgeFile.PanicsIff` | v1/src/database.rs:32 | the reader panics iff some readable line holds a token that is not an `i32` |
| `EdgeFile.EdgesOfMembership` | v1/src/database.rs:30-44 | a returned edge is exactly one that some readable line contributes for `node` |
| `EdgeFile.EdgesLeaveNode` | v1/src/database.rs:30-44 | every returned edge has `from == node` |
| `EdgeFile.NonIntegerTokenPanics` | v1/src/database.rs:32 | a token with a non-digit after its first character makes the line panic |
| `EdgeFile.LineRoundTrip` | hello_world/src/database/graph_edges_parser.rs:76-87 | the text `u v w` of three `i32`s parses back to exactly that triple |
| `EdgeFile.ShowIsWord` | hello_world/src/database/graph_edges_parser.rs:76 | the decimal text of an integer is one whitespace-free token |
| `StateOrder.CompareInt` | v0/src/dijkstra.rs:13-29 | `i32::cmp` is `Less`, `Equal` or `Greater` exactly as `<`, `==` or `>` |
| `StateOrder.CompareReal` | v4/src/dijkstra.rs:17-37 | `f64::partial_cmp` on non-NaN values is `Less`, `Equal` or `Greater` exactly as `<`, `==` or `>` |
| `StateOrder.Cmp` | v0/src/dijkstra.rs:13-18 | the reversed order: a cheaper state compares greater, a dearer one less, an equally costly one equal |
| `StateOrder.TraitsConsistent` | v1/src/database/graph_edges_parser.rs:157-175 | `partial_cmp` is `Some(cmp)` and `eq` holds exactly when `cmp` is `Equal` |
| `StateOrder.CmpIsTotalOrder` | hello_world/src/database/graph_edges_parser.rs:170-188 | `cmp` is antisymmetric and transitive |
| `StateOrder.EqIgnoresNode` | v0/src/dijkstra.rs:25-29 | for all states, `eq` holds iff the costs are equal, so different states at different nodes with one cost are equal |
| `StateOrder.EqNotStructural` | v0/src/dijkstra.rs:25-29 | a witness: `State(7, 1)` and `State(7, 2)` differ but are `eq` |
| `StateOrder.GreatestIsCheapest` | v0/src/dijkstra.rs:13-18 | the greatest entry of the max-heap is exactly an entry of least cost |
| `StateOrder.GeoCmp` | v4/src/dijkstra.rs:17-23 | v4's `cmp` is reversed: a cheaper state compares greater |
| `StateOrder.GeoPartialCmp` | v4/src/dijkstra.rs:25-29 | v4's `partial_cmp` is not reversed: a cheaper state compares less |
| `StateOrder.GeoTraitsDisagree` | v4/src/dijkstra.rs:17-29 | the two traits agree exactly when the costs are equal, and are flipped otherwise |
| `Reconstruct.Reverse` | v0/src/dijkstra.rs:47 | `path.reverse()` puts element `i` at position `len - 1 - i` |
| `Reconstruct.ReconstructPath` | v0/src/dijkstra.rs:33-49 | the loop returns the predecessor chain from `start` to `end` when there is one, and `[]` when a link is missing |
| `Reconstruct.RevPush` | v0/src/dijkstra.rs:46-47 | pushing then reversing puts the pushed element first |
| `Reconstruct.PathToStart` | v1/src/database/graph_edges_parser.rs:177-193 | `reconstruct_path(p, s, s)` is `[s]` |
| `Reconstruct.ChainIsLinkPath` | hello_world/src/database/graph_edges_parser.rs:190-206 | a found chain starts at `start`, ends at `end`, and each element's predecessor is the element before it |
| `Reconstruct.LinkPathIsChain` | v0/src/dijkstra.rs:33-49 | every such link path is the chain the walk finds, so it is unique |
| `Reconstruct.PathCharacterised` | v1/src/database/graph_edges_parser.rs:177-193 | the path is `p` and non-empty iff `p` is a link path from `start` to `end` |
| `Reconstruct.BrokenChainIsEmpty` | v1/src/database/graph_edges_parser.rs:183-187 | a walk that meets an id without a predecessor before `start` gives `[]`, never a truncated path |
| `Reconstruct.ToCoordinates` | get-shortest-path/src/dijkstra.rs:52-56 | mapping ids to cached nodes succeeds iff every id is cached, and then gives one cached node per id in order |
| `Search.SlotsShrink` | v0/src/dijkstra.rs:77-81 | a strict improvement removes the improved (node, distance) pair from the termination measure |
| `Search.MinExists` | v0/src/dijkstra.rs:63 | a non-empty heap holds an entry of least cost |
| `Search.RelaxConsistent` | v0/src/dijkstra.rs:77-81 | a strict improvement never touches `start` or the expanded node, and keeps distances, predecessors and cached rows justified by hops |
| `Search.RelaxRanked` | v0/src/dijkstra.rs:77-81 | the new predecessor link points strictly down in rank, so the links stay acyclic |
| `Search.RelaxHeap` | v0/src/dijkstra.rs:82-85 | the pushed entry carries the new distance, and every entry still costs at least its node's distance |
| `Search.ReachedHasChain` | v0/src/dijkstra.rs:93-95 | every node with a distance has a predecessor chain back to `start` |
| `Search.LinkPathIsWalk` | v0/src/dijkstra.rs:75-81 | a path of recorded predecessor links is a walk along hops of the graph |
| `Search.ReachedPath` | v0/src/dijkstra.rs:93-95 | a reached node's chain is a link path and a walk |
| `Search.RelaxNeighbours` | v0/src/dijkstra.rs:72-88 | relaxing all hops of a node keeps every invariant, never raises a distance, and shrinks the measure unless nothing changed; it leaves every hop of the node relaxed and every other reached node still waiting in the heap at its distance or relaxed |
| `Search.Relax` | v0/src/dijkstra.rs:77-86 | one hop improves iff `cost + weight` is below the recorded value (unseen counts as `unseen`); then distance, predecessor, row and heap entry change together, else nothing changes; afterwards this hop is relaxed too, and no other reached node is lost from the frontier |
| `Search.RelaxStep` | hello_world/src/database/graph_edges_parser.rs:129-138 | one strict improvement keeps every invariant of the relaxation loop |
| `Search.RelaxSettled` | hello_world/src/database/graph_edges_parser.rs:129-138 | under min-first popping a relaxation never improves an already expanded node |
| `Search.SettleKeeps` | hello_world/src/database/graph_edges_parser.rs:116-123 | expanding an up-to-date entry of least cost keeps the expanded trace sorted by cost and final |
| `Search.RelaxTight` | v0/src/dijkstra.rs:77-81 | under min-first popping, an improvement from the node at the current cost keeps every predecessor final and every link exactly closing the distance gap |
| `Search.LinkWeightsBound` | v0/src/dijkstra.rs:33-49 | along a predecessor chain the justifying hops add up to at most the end's distance, and exactly to it when the links are tight |
| `Search.PopEntry` | v0/src/dijkstra.rs:63 | `heap.pop()` removes one entry, and under min-first popping one of least cost |
| `Search.HeapShrink` | v0/src/dijkstra.rs:63 | removing an entry keeps every remaining entry at or above its node's distance |
| `Search.Settle` | v0/src/dijkstra.rs:72-90 | expanding a popped entry appends it to the trace, panics iff its expansion aborts, changes nothing unless it expands, and keeps every invariant, tightness included; without a panic every reached node, the expanded one included, is covered (waiting in the heap at its distance, or relaxed) |
| `Search.Explore` | v0/src/dijkstra.rs:58-91 | the `while let` loop ends with consistent maps, never having expanded `end`, sorted, final and tight under min-first popping, and panicked iff the last expansion aborted; without a panic it either reached `end` or emptied the heap with every reached node relaxed, for any popping order |
| `Search.Pop` | v0/src/dijkstra.rs:63-71 | one pop: the destination stops the loop, a stale entry is skipped without expansion, a panicking expansion aborts, and otherwise the node is expanded with every invariant kept; when the loop goes on every reached node is still covered |
| `Search.FrontierStart` | v0/src/dijkstra.rs:57-61 | the source alone, waiting in the heap at distance 0, leaves no reached node uncovered |
| `Search.FrontierPop` | v0/src/dijkstra.rs:63-70 | popping an entry leaves every other reached node covered, and every reached node when the entry was stale |
| `Search.RelaxedKept` | v0/src/dijkstra.rs:79-80 | lowering another node's distance keeps a relaxed node relaxed |
| `Search.FrontierImprove` | v0/src/dijkstra.rs:79-85 | a strict improvement with its entry pushed keeps every node but the expanded one covered |
| `Search.HopsRelaxedImprove` | v0/src/dijkstra.rs:79-85 | improving a hop's target to exactly `cost + weight` relaxes that hop and keeps the earlier hops of the node relaxed |
| `Search.RelaxKeepsFrontier` | v0/src/dijkstra.rs:75-87 | relaxing one hop, improving or not, keeps the frontier and relaxes one more hop of the expanded node |
| `Search.FrontierJoin` | v0/src/dijkstra.rs:72-90 | once every hop of a non-panicking node is relaxed, every reached node is covered again |
| `Search.FrontierEmpty` | v0/src/dijkstra.rs:63 | when the heap runs dry, every reached node is relaxed |
| `Search.RelaxedReach` | v0/src/dijkstra.rs:93-106 | when every reached node is relaxed, a hop walk from a reached node whose weight keeps below `unseen` ends at a reached node, within the walk's weight of its first node: "No path found" means no such walk |
| `Search.Dijkstra` | v0/src/dijkstra.rs:52-110 | the search terminates; a non-panicking result is non-empty iff `end` has a distance, and is a predecessor link path and a walk from `start` to `end` whose hop weights add up to at most `dist[end]`, and exactly to it under min-first popping; it is non-empty whenever some hop walk from `start` to `end` weighs less than `unseen`, and an empty one leaves every reached node relaxed; `start == end` gives `[start]`; under min-first popping the expanded costs are sorted and final |
| `FileSearch.NatWeight` | hello_world/src/database/graph_edges_parser.rs:129 | a non-negative file weight is used unchanged |
| `FileSearch.EdgeHops` | v0/src/dijkstra.rs:75-77 | the edges of a lookup become hops with their target and weight, one per edge, in order |
| `FileSearch.LookupExpansion` | v0/src/dijkstra.rs:72-89 | a lookup error skips the node and never panics; otherwise one hop per returned edge, in order, with its target and weight |
| `FileSearch.LookupHopEdge` | v0/src/dijkstra.rs:75-77 | a hop of the lookup's expansion is a returned edge with the same weight |
| `FileSearch.LookupWeighedWalk` | v0/src/dijkstra.rs:75-81 | the weights along a found path are weights of returned edges joining its consecutive nodes |
| `FileSearch.LookupClosedIsClosed` | v0/src/dijkstra.rs:72-90 | when every looked-up edge stays in the universe, so does every hop of the search |
| `FileSearch.LookupWalk` | v0/src/dijkstra.rs:72-81 | a walk of the search is a walk along edges the adjacency lookup returns |
| `FileSearch.DijkstraLookup` | v0/src/dijkstra.rs:52-110 | v0: a non-empty result iff `end` has a distance, then a link path and an edge walk whose edge weights add up to exactly `dist[end]`; non-empty whenever some walk along lookup edges from `start` to `end` weighs less than `i32::MAX`; `start` stays at distance 0 with no predecessor; every distance is below `i32::MAX`; expanded entries are never `end`, hold final distances, and are sorted by cost |
| `FileSearch.HopOfEdge` | v0/src/dijkstra.rs:75-77 | every edge of a lookup is a hop of it, with the same target and weight |
| `FileSearch.LookupEdgeWalkIsWalk` | v0/src/dijkstra.rs:72-77 | a walk along lookup edges is a hop walk of the search with the same weights |
| `FileSearch.FileExpansion` | hello_world/src/database/graph_edges_parser.rs:125-141 | the expansion panics iff the file opens and some readable line has a bad token, whatever the node; an unopenable file gives no hops; otherwise one hop per edge read, in order |
| `FileSearch.FileHopEdge` | hello_world/src/database/graph_edges_parser.rs:127-129 | a hop of the file's expansion is an edge the file yields, with the same weight |
| `FileSearch.FileWeighedWalk` | hello_world/src/database/graph_edges_parser.rs:127-133 | the weights along a found path are weights of file edges joining its consecutive nodes |
| `FileSearch.FileClosed` | hello_world/src/database/graph_edges_parser.rs:82-87 | every edge the file yields ends at a node the file mentions |
| `FileSearch.FileWalk` | hello_world/src/database/graph_edges_parser.rs:129-138 | a walk of the search is a walk along edges the file yields |
| `FileSearch.DijkstraFile` | hello_world/src/database/graph_edges_parser.rs:105-162 | hello_world: panics iff `start != end`, the file opens, and some readable line has a bad token; otherwise a non-empty result iff `end` has a distance, a walk along file edges whose weights add up to exactly `dist[end]`, and non-empty whenever some walk along file edges from `start` to `end` weighs less than `i32::MAX`; an unopenable file gives `[start]` or `[]` |
| `FileSearch.FileEdgeWalkIsWalk` | hello_world/src/database/graph_edges_parser.rs:124-130 | a walk along file edges is a hop walk of the search with the same weights |
| `StoreSearch.NeighbourHops` | v4/src/dijkstra.rs:95-102 | the fetched neighbours become hops to their rows, weighed by the distance between the two rows, in adjacency-list order |
| `StoreSearch.StoreExpansion` | v4/src/dijkstra.rs:89-102 | expanding a row aborts iff some listed id has no row or its distance fails (either `unwrap` panics); otherwise one hop per listed id, in list order |
| `StoreSearch.NoHopFails` | v4/src/dijkstra.rs:89-93 | when no listed id fails, each has a row at a computable distance |
| `StoreSearch.HopOf` | v4/src/dijkstra.rs:90-96 | every hop goes to a stored row listed in the expanded row's adjacency list, with the geodesic weight, which is the step's length |
| `StoreSearch.StepLengths` | v4/src/dijkstra.rs:57-64 | one geodesic step length per consecutive pair of the path |
| `StoreSearch.LinkWeightsAreLengths` | v4/src/dijkstra.rs:93-99 | the hops justifying a path's links weigh exactly its geodesic step lengths |
| `StoreSearch.StoreClosed` | v4/src/dijkstra.rs:90 | every hop ends at a stored row or at the source |
| `StoreSearch.FactsOfConsistent` | get-shortest-path/src/dijkstra.rs:104-111 | the cached row of every reached node is its store row, every predecessor is adjacent at a computable distance, and distances obey the hop weights |
| `StoreSearch.WalkIsAdjacencyWalk` | v2/src/dijkstra.rs:94-101 | a walk of the search follows the rows' adjacency lists |
| `StoreSearch.SameIdText` | v4/src/dijkstra.rs:81-87 | comparing `to_string()`s of ids is comparing the ids |
| `StoreSearch.StoreDijkstra` | v4/src/dijkstra.rs:57-123 | panics only when the last expanded row lists an id that has no row or whose distance fails, and never when no row can; a result is non-empty iff the destination has a distance, and then an adjacency walk from source to destination whose geodesic length is at most that distance; it is non-empty whenever some adjacency walk from source to destination is shorter than `f64::MAX`; `src == dest` gives `[src]` |
| `StoreSearch.StepIsHop` | v4/src/dijkstra.rs:89-101 | an adjacency step out of a row whose expansion does not panic is a hop weighed by its geodesic length |
| `StoreSearch.NoCheapWalk` | v4/src/dijkstra.rs:106-118 | when every reached node is relaxed, an adjacency walk from the source shorter than `f64::MAX` ends at a reached node |
| `StoreSearch.LonLat` | get-shortest-path/src/dijkstra.rs:52-56 | a node becomes `[lon, lat]` |
| `StoreSearch.LonLats` | get-shortest-path/src/dijkstra.rs:52-56 | the rows become their `[lon, lat]` pairs, one per row, in order |
| `StoreSearch.StoreDijkstraCoordinates` | get-shortest-path/src/dijkstra.rs:59-135 | the lambda variant panics only when some row's expansion can, never when none can; otherwise it returns one `[lon, lat]` per id of the adjacency walk from source to destination, the cached row's coordinates for each, and a non-empty list whenever some adjacency walk from source to destination is shorter than `f64::MAX` |
| `StoreSearch.PathReached` | get-shortest-path/src/dijkstra.rs:116-128 | every id of a predecessor path from the source was reached |
| `Stitch.FailureIsFinal` | v4/src/main.rs:198 | after a failed segment no later segment runs: the failure is the outcome |
| `Stitch.SegmentsOkIff` | v4/src/main.rs:196-206 | the first `k` segments give paths iff each of them does |
| `Stitch.SegmentPaths` | v4/src/main.rs:196-206 | one path per segment, each exactly what that segment's search returned |
| `Stitch.AllSegmentsOk` | v4/src/main.rs:181-210 | when every segment gives a path, the call returns the join of exactly those paths in order |
| `Stitch.FirstFailureWins` | get-shortest-path/src/main.rs:384-400 | the first failing segment decides the outcome, whatever later segments would do |
| `Stitch.GetShortestPathMultiple` | get-shortest-path/src/main.rs:372-401 | the loop returns the specified outcome: `InvalidInput` for fewer than two points, the first failure, or the joined route |
| `Stitch.JoinedLength` | get-shortest-path-radical/src/main.rs:441-447 | route length is the total of segment lengths less one junction per non-empty later segment |
| `Stitch.JoinedIsWalk` | v4/src/main.rs:200-206 | stitching linked walks gives one walk from the first start to the last end, with each junction met once |
| `Stitch.StitchedIsWalk` | get-shortest-path-radical/src/main.rs:422-451 | when every segment is a non-empty walk between its waypoints' nodes, the call returns one walk from the first waypoint's node to the last one's |
| `Stitch.RecordedRun` | v4/src/main.rs:110-120 | the recorded two-segment run joins into the recorded route, junction once |
| `Stitch.LenientJoinsAll` | v2/src/main.rs:130-155 | v2 with a search that never panics returns the join of exactly the segment paths |
| `Stitch.GetShortestPathMultipleLenient` | v2/src/main.rs:119-155 | v2's loop returns the specified route: empty for fewer than two points, a panic, or the joined route |
| `Route.Endpoints` | v4/src/main.rs:146-171 | both nodes when both lookups find one; otherwise the first lookup error, or `NotFound` naming the source or the destination |
| `Route.GetShortestPath` | v4/src/main.rs:146-179 | a resolution error is the result; otherwise the search panics only when some row's expansion can (a missing id or a failing distance), never when none can, and yields `[]` or a route from source to destination along adjacency lists, the route whenever some adjacency walk between them is shorter than `f64::MAX` |
| `Route.RouteIsStoreWalk` | v4/src/dijkstra.rs:90-102 | a route of the search follows the store's adjacency lists |
| `Route.StitchedRoute` | get-shortest-path/src/main.rs:339-401 | multi-waypoint routes over `get_shortest_path` are one walk along the store's adjacency lists from the first waypoint's node to the last one's |
| `Narrow.AsI32` | get-shortest-path/src/main.rs:70 | `x as i32` is the `i32` congruent to `x` modulo 2^32 |
| `Narrow.AsI32KeepsExactlyI32` | get-shortest-path/src/main.rs:70 | the cast changes a value iff it is outside the `i32` range |
| `Narrow.NarrowPath` | get-shortest-path-radical/src/main.rs:82 | the handler's conversion casts every id, keeping the length |
| `Narrow.RecordedResponse` | get-shortest-path-radical/src/main.rs:136 | the recorded route narrows to exactly the recorded response, with three ids replaced |
| `Narrow.NarrowingChangesIds` | get-shortest-path-radical/src/main.rs:136 | 8942477433 and 5604208759 come out as 352542841 and 1309241463 |
| `Narrow.TryNarrowPath` | get-shortest-path/src/main.rs:70 | the checked conversion succeeds iff every id fits an `i32`, and then returns the ids unchanged |
| `Narrow.TryNarrowAgrees` | get-shortest-path/src/main.rs:70 | where the checked conversion succeeds it agrees with the cast |
| `FilterMaps.FilterMap` | v2/src/database.rs:62-67 | the collected values are no more than the input elements |
| `FilterMaps.FilterMapAppend` | v2/src/database.rs:62-67 | filtering keeps input order: a concatenation filters part by part |
| `FilterMaps.FilterMapMembership` | v5/src/database.rs:227-231 | a value is collected iff some element yields it |
| `FilterMaps.FilterMapTotal` | v3/src/database.rs:68-73 | when every element yields a value, one value per element, in order |
| `FilterMaps.FilterMapDrops` | v5/src/database.rs:227-231 | an element yielding `None` leaves the output as if it were absent |
| `Resolve.FindClosestNode` | v4/src/database.rs:183-199 | panics iff some distance cannot be computed; else `None` iff no node is closer than `f64::MAX`, and otherwise the first node at least distance |
| `Resolve.ClosestExistsIffNonEmpty` | v2/src/database.rs:163-179 | with finite distances, a closest node exists iff there are candidates |
| `Resolve.EarliestTieWins` | v3/src/database.rs:169-185 | ties go to the earliest: the chosen node occurs no later than any node at least distance |
| `Resolve.QueryNodeByCoordinates` | v4/src/database.rs:138-181 | a query error is passed on, no rows is `Ok(None)`, otherwise the closest row as above |
| `Resolve.QueryNodesById` | v2/src/database.rs:56-69 | the loop returns the rows found, in id order, skipping missing ids |
| `Resolve.FoundMembership` | v3/src/database.rs:62-75 | a row is returned iff some listed id has it in the store |
| `Resolve.FoundAll` | v2/src/database.rs:56-69 | when every id is stored, one row per id, in order |
| `Resolve.MissingIdDropped` | v3/src/database.rs:68-73 | a missing id is skipped silently: as if it were not listed |
| `Resolve.GetAdjacencyNodesFromId` | v2/src/database.rs:181-198 | a missing node gives no rows; otherwise the stored rows of its adjacency list in list order |
| `Deviation.ParseCoordinates` | v5/src/database.rs:215-225 | a coordinate iff the value is an array of exactly two numbers, latitude first |
| `Deviation.CoordinateRoundTrip` | v5/src/database.rs:215-225 | parsing inverts `json!([lat, lon])`, and anything that parses is such an encoding |
| `Deviation.ParseRouteCoordinates` | v5/src/database.rs:227-231 | a route iff the value is an array, with at most one coordinate per entry |
| `Deviation.RouteMembership` | v5/src/database.rs:227-231 | a coordinate is in the route iff some entry parses to it |
| `Deviation.MalformedEntryDropped` | v5/src/database.rs:227-231 | a malformed entry is dropped and the others keep their order |
| `Deviation.EncodeRoute` | v5/src/database.rs:182-211 | the stored route is an array with one `[lat, lon]` pair per point, in order |
| `Deviation.RouteRoundTrip` | v5/src/database.rs:182-231 | a stored route reads back as itself |
| `Deviation.IsPointOnSegment` | v5/src/database.rs:252-265 | `Ok` iff all three distances are computed, then true iff `d1 + d2` is within 0.01 of the segment length; otherwise the first error |
| `Deviation.EndpointsOnSegment` | v5/src/main.rs:115-185 | with `d(x, x) = 0` and symmetry both endpoints lie on their segment |
| `Deviation.CheckDeviationFromRoute` | v5/src/database.rs:269-319 | the loop returns the specified outcome: a missing location or route is `NotFound`, fewer than two points `InvalidInput`, else the scan of the segments |
| `Deviation.ScanSkips` | v5/src/database.rs:295-318 | segments that leave the point out are passed over |
| `Deviation.DeviatedIff` | v5/src/database.rs:295-318 | deviated iff every segment's test returns `Ok(false)` |
| `Deviation.OnRouteIff` | v5/src/database.rs:295-318 | not deviated iff some segment's test is `Ok(true)` and every earlier one is `Ok(false)` |
| `Deviation.FirstFailureAborts` | v5/src/database.rs:295-318 | the first segment whose test fails ends the check with an `Other` error carrying the message |
| `Deviation.ParseErrors` | v5/src/database.rs:271-290 | a missing or malformed location is `NotFound`; with a location, a missing or non-array route is `NotFound` |
| `Deviation.AtFirstPointNotDeviated` | v5/src/main.rs:214-237 | a user standing at the first point of their stored route has not deviated |
| `Osm.AppendAdjacency` | osm_parser.py:46-51 | appending to a node's list keeps the set of stored node keys |
| `Osm.LinkWay` | osm_parser.py:45-51 | handling a way's refs never adds or removes node keys |
| `Osm.LinkWayAppends` | setup_psql.py:50-53 | a way only appends: every other field stays, and each list becomes the old one followed by the neighbours of each occurrence of its node |
| `Osm.AddedHasNeighbours` | test_setup_dynamodb.py:47-50 | each occurrence of a node in a way contributes its previous and next refs |
| `Osm.MutualAdjacency` | osm_parser.py:45-51 | two consecutive stored refs of a way list each other once it is handled |
| `Osm.AddedOnce` | osm_parser.py:48-51 | a ref occurring once gains exactly its previous then next ref |
| `Osm.OsmHandler.constructor` | osm_parser.py:20-24 | the handler starts with no nodes, ways or relations |
| `Osm.OsmHandler.Node` | osm_parser.py:27-38 | a node with a valid location is stored under `str(id)` with its coordinates, tags and an empty list, replacing any earlier entry; an invalid location raises, is caught, and stores nothing; nothing else changes |
| `Osm.OsmHandler.Way` | osm_parser.py:41-62 | the nodes become the old ones linked along the way's refs, and the way is appended with its refs in order |
| `Osm.OsmHandler.Relation` | osm_parser.py:65-76 | the relation is appended with its members in order; nothing else changes |

## Left out

- The SQL, PostGIS and DynamoDB queries, file opening, the Lambda and HTTP
  handlers, async and logging (`println!`/`eprintln!`) are I/O. Their
  results are parameters.
- The bounding-box deltas that `get_node_by_lat_lon` and
  `query_node_by_coordinates` put in their queries are not modelled. The
  rows they return are a parameter.
- `f64` arithmetic is modelled as exact: search costs are `nat`, and
  distances in the deviation check and the closest-node scan are `real`.
  NaN does not arise, so `partial_cmp(..).unwrap_or(Equal)` is always the
  plain comparison.
- Search.Dijkstra: proves that the route is a walk along the graph made of
  the recorded predecessor links, whose length is at most the
  destination's distance, and equal to it under min-first popping. It
  proves that a walk lighter than the unseen distance is always found,
  but not that the route found is a shortest one.
- FileSearch.DijkstraLookup: requires non-negative edge weights. The
  source's weights are `i32`s and it accepts negative ones; the model
  excludes them, since its search weights are `nat`. It does not model
  `i32` overflow of `cost + weight`, and does not prove the route is
  shortest.
- FileSearch.DijkstraFile: requires non-negative edge weights, for the
  same reason: the file may hold negative `i32` weights, which the source
  accepts and the model excludes. It does not model `i32` overflow of
  `cost + weight`, and does not prove the route is shortest.
- StoreSearch.StoreDijkstra: requires that every row is stored under its
  own id (the query is `WHERE id = $1`). It proves that the route's
  geodesic length is at most the destination's distance, not that they
  are equal: the store variants' heap order is incoherent, so no order
  of popping is assumed, and a node's distance may drop after it was
  expanded. It does not prove the route is shortest.
- Route.GetShortestPath: requires that every row is stored under its own
  id, as above.
- Search.Dijkstra: takes a ghost finite set of nodes that every hop stays
  inside. A real map is finite, and that set is what bounds the loop.
- Reconstruct.ReconstructPath: requires predecessor links that go strictly
  down a ghost rank. A hand-made cyclic map that never reaches `start`
  would make the source loop forever. The predecessor maps the searches
  build always meet the rank requirement (`Search.RelaxRanked`).
- Deviation.EndpointsOnSegment: holds only for a distance with
  `d(x, x) = 0` and symmetry, which the library is expected to satisfy.
- The v1 `graph_edges_parser.rs` reader of string-id JSON nodes is not
  part of this model. Only its `State` order and `reconstruct_path` are.
- The Python handlers: of the `try`/`except` that prints and goes on, only
  the invalid-location case of `node` is modelled (an `Option` location,
  with nothing stored). Other exceptions inside `way` and `relation` are
  not modelled; the only step there that could raise is an attribute
  read of the osmium object. The printed message is not modelled either.
  Also left out:
  - the `"type"` fields and the relation member-type strings;
  - `osm_parser.py`'s `Decimal(str(lat))`, modelled as an exact real;
  - `get_data`, and the upload scripts around the handler.
- update_user_route_node_coordinates is modelled only through the JSON it
  stores (`Deviation.EncodeRoute`). The SQL update is I/O.

## Findings

| source | as written | input that shows it | evidently intended | confidence | as-written member | corrected member |
|---|---|---|---|---|---|---|
| get-shortest-path-radical/src/main.rs:82 | the route's `i64` OSM ids are narrowed with `x as i32`, which wraps ids above `i32::MAX` | the route through 5604208759 and 8942477433 (v4/src/main.rs:110-120) comes back with 1309241463 and 352542841, as the recorded response shows | return the ids unchanged, or an error when one does not fit | not executed | `Narrow.RecordedResponse` | `Narrow.TryNarrowPath` |
| get-shortest-path/src/main.rs:70 | the same `x as i32` narrowing of the route's ids | any id of 2^31 or more, e.g. 8942477433 becomes 352542841 | return the ids unchanged, or an error when one does not fit | not executed | `Narrow.NarrowingChangesIds` | `Narrow.TryNarrowAgrees` |
