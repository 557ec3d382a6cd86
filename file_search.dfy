/**
  The integer prototypes' `dijkstra(start, end)`: `i32` node ids, `i32`
  edge weights, `i32::MAX` as the distance of an unseen node and a coherent
  `State` order, so the binary heap pops an entry of least cost. In v0 the
  neighbours come from an adjacency lookup that may fail (the error is
  logged and the node is not expanded); in hello_world they come from the
  `u v w` edge file, whose parse can panic.
*/
module FileSearch {
  import opened Wrappers
  import opened Decimal
  import opened EdgeFile
  import opened Reconstruct
  import opened Search

  /** A weight of the search; the model only covers non-negative edge weights. */
  function NatWeight(w: int): (n: nat)
    ensures w >= 0 ==> n == w
  {
    if w < 0 then 0 else w
  }

  /** The edges of one lookup as hops of the search: target and weight, in order. */
  function EdgeHops(edges: seq<Edge>): (hs: seq<Hop<int, ()>>)
    ensures |hs| == |edges|
    ensures forall i :: 0 <= i < |edges| ==> hs[i] == Hop(edges[i].to, NatWeight(edges[i].weight), ())
  {
    if edges == [] then [] else [Hop(edges[0].to, NatWeight(edges[0].weight), ())] + EdgeHops(edges[1..])
  }

  /** Every hop of a lookup comes from one of its edges, with the same target and weight. */
  lemma EdgeOfHop(edges: seq<Edge>, h: Hop<int, ()>) returns (e: Edge)
    requires h in EdgeHops(edges)
    ensures e in edges && e.to == h.to && h.weight == NatWeight(e.weight)
  {
    var k :| 0 <= k < |EdgeHops(edges)| && EdgeHops(edges)[k] == h;
    e := edges[k];
  }

  /** Every edge of a lookup is one of its hops, with the same target and weight. */
  lemma HopOfEdge(edges: seq<Edge>, e: Edge)
    requires e in edges
    ensures Hop(e.to, NatWeight(e.weight), ()) in EdgeHops(edges)
  {
    var k :| 0 <= k < |edges| && edges[k] == e;
    assert EdgeHops(edges)[k] == Hop(e.to, NatWeight(e.weight), ());
  }

  // ---------------------------------------------------------------------------
  // v0: neighbours from a lookup that may fail

  /** `match database::get_adjacency_nodes(node)`: the edges, or an error that only skips the node. */
  function LookupExpansion(adjacency: int -> Option<seq<Edge>>, n: int): (x: Expansion<int, ()>)
    ensures !x.Abort?
    ensures x.Skip? <==> adjacency(n).None?
    ensures x.Expand? ==>
              |x.hops| == |adjacency(n).value| &&
              forall i :: 0 <= i < |x.hops| ==>
                x.hops[i].to == adjacency(n).value[i].to && x.hops[i].weight == NatWeight(adjacency(n).value[i].weight)
  {
    match adjacency(n)
    case None => Skip
    case Some(edges) => Expand(EdgeHops(edges))
  }

  ghost predicate LookupWeightsNonNegative(adjacency: int -> Option<seq<Edge>>) {
    forall n, e :: adjacency(n).Some? && e in adjacency(n).value ==> e.weight >= 0
  }

  /** Every edge any lookup returns leads into `universe`: the graph is finite. */
  ghost predicate LookupClosed(adjacency: int -> Option<seq<Edge>>, universe: set<int>) {
    forall n, e :: adjacency(n).Some? && e in adjacency(n).value ==> e.to in universe
  }

  /** Consecutive ids of `p` are joined by edges of the lookup. */
  ghost predicate IsEdgeWalk(adjacency: int -> Option<seq<Edge>>, p: seq<int>) {
    forall i :: 0 < i < |p| ==> EdgeStep(adjacency, p[i - 1], p[i])
  }

  /** The lookup of `a` succeeds and holds an edge to `b`. */
  ghost predicate EdgeStep(adjacency: int -> Option<seq<Edge>>, a: int, b: int) {
    adjacency(a).Some? && exists e :: e in adjacency(a).value && e.to == b
  }

  /** The lookup of `a` succeeds and holds an edge to `b` of weight `w`. */
  ghost predicate WeighedEdge(adjacency: int -> Option<seq<Edge>>, a: int, b: int, w: nat) {
    adjacency(a).Some? && exists e :: e in adjacency(a).value && e.to == b && e.weight == w
  }

  /** `ws` are the weights of edges of the lookup joining the consecutive ids of `p`. */
  ghost predicate WeighedEdgeWalk(adjacency: int -> Option<seq<Edge>>, p: seq<int>, ws: seq<nat>) {
    |ws| == |p| - 1 && forall i :: 0 < i < |p| ==> WeighedEdge(adjacency, p[i - 1], p[i], ws[i - 1])
  }

  /** A hop of the lookup's expansion is an edge of the lookup, of the same weight. */
  lemma LookupHopEdge(adjacency: int -> Option<seq<Edge>>, a: int, h: Hop<int, ()>)
    requires LookupWeightsNonNegative(adjacency)
    requires h in Hops(LookupExpansion(adjacency, a))
    ensures WeighedEdge(adjacency, a, h.to, h.weight)
  {
    var e := EdgeOfHop(adjacency(a).value, h);
  }

  /** The weights of the links along a path are the weights of lookup edges along it. */
  lemma LookupWeighedWalk(adjacency: int -> Option<seq<Edge>>, link: map<int, Hop<int, ()>>, p: seq<int>)
    requires LookupWeightsNonNegative(adjacency) && p != []
    requires LinkHops(n => LookupExpansion(adjacency, n), link, p)
    ensures WeighedEdgeWalk(adjacency, p, LinkWeights(link, p))
  {
    var ws := LinkWeights(link, p);
    forall i | 0 < i < |p|
      ensures WeighedEdge(adjacency, p[i - 1], p[i], ws[i - 1])
    {
      LookupHopEdge(adjacency, p[i - 1], link[p[i]]);
    }
  }

  /** A walk along lookup edges is a walk along the hops of the search, of the same weights. */
  lemma LookupEdgeWalkIsWalk(adjacency: int -> Option<seq<Edge>>, p: seq<int>, ws: seq<nat>)
    requires WeighedEdgeWalk(adjacency, p, ws)
    ensures WeighedWalk(n => LookupExpansion(adjacency, n), p, ws)
  {
    forall i | 0 < i < |p|
      ensures HopStep(n => LookupExpansion(adjacency, n), p[i - 1], p[i], ws[i - 1])
    {
      assert WeighedEdge(adjacency, p[i - 1], p[i], ws[i - 1]);
      var e :| e in adjacency(p[i - 1]).value && e.to == p[i] && e.weight == ws[i - 1];
      HopOfEdge(adjacency(p[i - 1]).value, e);
      assert Hop(p[i], ws[i - 1], ()) in Hops(LookupExpansion(adjacency, p[i - 1]));
    }
  }

  lemma LookupClosedIsClosed(adjacency: int -> Option<seq<Edge>>, universe: set<int>)
    requires LookupClosed(adjacency, universe)
    ensures Closed(n => LookupExpansion(adjacency, n), universe)
  {
    forall v, h | h in Hops(LookupExpansion(adjacency, v))
      ensures h.to in universe
    {
      var e := EdgeOfHop(adjacency(v).value, h);
    }
  }

  /** One step of a walk of the search is an edge of the lookup. */
  lemma LookupStep(adjacency: int -> Option<seq<Edge>>, p: seq<int>, i: int)
    requires IsWalk(n => LookupExpansion(adjacency, n), p) && 0 < i < |p|
    ensures EdgeStep(adjacency, p[i - 1], p[i])
  {
    var h := WalkStep(n => LookupExpansion(adjacency, n), p, i);
    var e := EdgeOfHop(adjacency(p[i - 1]).value, h);
  }

  lemma LookupWalk(adjacency: int -> Option<seq<Edge>>, p: seq<int>)
    requires IsWalk(n => LookupExpansion(adjacency, n), p)
    ensures IsEdgeWalk(adjacency, p)
  {
    forall i | 0 < i < |p|
      ensures EdgeStep(adjacency, p[i - 1], p[i])
    {
      LookupStep(adjacency, p, i);
    }
  }

  /**
    v0's `dijkstra(start, end)` over the lookup `adjacency` (`ghost universe`
    holds every node an edge can reach). A lookup error never stops the
    search, so it always returns a path: `[start]` when `start == end`, else
    empty exactly when `end` received no distance, and otherwise a walk along
    the lookup's edges from `start` to `end` through the recorded
    predecessors, whose edge weights add up to the distance of `end`
    (`dist[end]` is the length of the path found). The path is never empty
    when some walk along lookup edges from `start` to `end` weighs less than
    `i32::MAX`. The source keeps distance 0 and no predecessor, and every
    expanded node's distance was final when it was expanded.
  */
  method DijkstraLookup(adjacency: int -> Option<seq<Edge>>, start: int, end: int, ghost universe: set<int>)
    returns (path: seq<int>, distances: map<int, nat>, predecessors: map<int, int>, ghost settled: seq<Entry<int>>)
    requires LookupWeightsNonNegative(adjacency)
    requires start in universe && LookupClosed(adjacency, universe)
    ensures start == end ==> path == [start]
    ensures path != [] <==> end in distances
    ensures path != [] ==> LinkPath(predecessors, start, end, path) && IsEdgeWalk(adjacency, path)
    ensures path != [] ==> exists ws :: WeighedEdgeWalk(adjacency, path, ws) && Sum(ws) == distances[end]
    ensures start in distances && distances[start] == 0 && start !in predecessors
    ensures forall v :: v in distances ==> distances[v] < I32_MAX
    ensures forall e :: e in settled ==> e.node != end && e.node in distances && distances[e.node] == e.cost
    ensures CostsSorted(settled)
    ensures forall p, ws ::
              WeighedEdgeWalk(adjacency, p, ws) && |p| > 0 && p[0] == start && p[|p| - 1] == end && Sum(ws) < I32_MAX
              ==> path != []
  {
    var expand := n => LookupExpansion(adjacency, n);
    LookupClosedIsClosed(adjacency, universe);
    var r, nodes;
    ghost var link;
    r, distances, predecessors, nodes, link, settled := Dijkstra(expand, I32_MAX, start, (), end, true, universe);
    if r.Panicked? {
      assert false;
    }
    path := r.value;
    if path != [] {
      LookupWalk(adjacency, path);
      LookupWeighedWalk(adjacency, link, path);
    }
    forall p, ws | WeighedEdgeWalk(adjacency, p, ws) && |p| > 0 && p[0] == start && p[|p| - 1] == end && Sum(ws) < I32_MAX
      ensures path != []
    {
      LookupEdgeWalkIsWalk(adjacency, p, ws);
    }
  }

  // ---------------------------------------------------------------------------
  // hello_world: neighbours from the edge file

  /** `get_adjacency_nodes(node)`: the file's edges for `node`, or a panic of the parse. */
  function FileExpansion(file: Option<seq<LineRead>>, n: int): (x: Expansion<int, ()>)
    ensures !x.Skip?
    ensures x.Abort? <==> file.Some? && HasPanickingLine(file.value)
    ensures file.None? ==> x == Expand([])
    ensures x.Expand? && file.Some? ==>
              EdgesOf(file.value, n).Done? && |x.hops| == |EdgesOf(file.value, n).value| &&
              forall i :: 0 <= i < |x.hops| ==>
                x.hops[i].to == EdgesOf(file.value, n).value[i].to &&
                x.hops[i].weight == NatWeight(EdgesOf(file.value, n).value[i].weight)
  {
    if file.None? then Expand([])
    else
      PanicsIff(file.value, n);
      match EdgesOf(file.value, n)
      case Panicked => Abort
      case Done(edges) => Expand(EdgeHops(edges))
  }

  /** Line `i` parses to a triple. */
  ghost predicate IsTriple(lines: seq<LineRead>, i: int) {
    0 <= i < |lines| && lines[i].Line? && ParseLine(lines[i].text).Triple?
  }

  /** Every node id the file mentions. */
  ghost function FileNodes(lines: seq<LineRead>): set<int> {
    (set i | 0 <= i < |lines| && IsTriple(lines, i) :: ParseLine(lines[i].text).u) +
    (set i | 0 <= i < |lines| && IsTriple(lines, i) :: ParseLine(lines[i].text).v)
  }

  ghost predicate FileWeightsNonNegative(lines: seq<LineRead>) {
    forall i :: IsTriple(lines, i) ==> ParseLine(lines[i].text).w >= 0
  }

  ghost predicate HasPanickingLine(lines: seq<LineRead>) {
    exists i :: 0 <= i < |lines| && Panics(lines[i])
  }

  /** Every edge the file yields for any node ends at a node of the file. */
  lemma FileClosed(lines: seq<LineRead>, start: int)
    ensures Closed(n => FileExpansion(Some(lines), n), FileNodes(lines) + {start})
  {
    forall v, h | h in Hops(FileExpansion(Some(lines), v))
      ensures h.to in FileNodes(lines) + {start}
    {
      var e := EdgeOfHop(EdgesOf(lines, v).value, h);
      EdgesOfMembership(lines, v, e);
      var i :| 0 <= i < |lines| && Contributes(lines[i], v, e);
      var t := ParseLine(lines[i].text);
      LineEdgesMembership(v, t.u, t.v, t.w, e);
      assert IsTriple(lines, i);
    }
  }

  /** Consecutive ids of `p` are joined by edges the file yields. */
  ghost predicate IsFileWalk(lines: seq<LineRead>, p: seq<int>) {
    forall i :: 0 < i < |p| ==> FileStep(lines, p[i - 1], p[i])
  }

  /** The file yields, for `a`, an edge to `b` without panicking. */
  ghost predicate FileStep(lines: seq<LineRead>, a: int, b: int) {
    EdgesOf(lines, a).Done? && exists e :: e in EdgesOf(lines, a).value && e.to == b
  }

  /** The file yields, for `a`, an edge to `b` of weight `w` without panicking. */
  ghost predicate WeighedFileEdge(lines: seq<LineRead>, a: int, b: int, w: nat) {
    EdgesOf(lines, a).Done? && exists e :: e in EdgesOf(lines, a).value && e.to == b && e.weight == w
  }

  /** `ws` are the weights of file edges joining the consecutive ids of `p`. */
  ghost predicate WeighedFileWalk(lines: seq<LineRead>, p: seq<int>, ws: seq<nat>) {
    |ws| == |p| - 1 && forall i :: 0 < i < |p| ==> WeighedFileEdge(lines, p[i - 1], p[i], ws[i - 1])
  }

  /** A walk along file edges is a walk along the hops of the search, of the same weights. */
  lemma FileEdgeWalkIsWalk(lines: seq<LineRead>, p: seq<int>, ws: seq<nat>)
    requires WeighedFileWalk(lines, p, ws)
    ensures WeighedWalk(n => FileExpansion(Some(lines), n), p, ws)
  {
    forall i | 0 < i < |p|
      ensures HopStep(n => FileExpansion(Some(lines), n), p[i - 1], p[i], ws[i - 1])
    {
      assert WeighedFileEdge(lines, p[i - 1], p[i], ws[i - 1]);
      var edges := EdgesOf(lines, p[i - 1]).value;
      var e :| e in edges && e.to == p[i] && e.weight == ws[i - 1];
      HopOfEdge(edges, e);
      assert FileExpansion(Some(lines), p[i - 1]) == Expand(EdgeHops(edges));
      assert Hop(p[i], ws[i - 1], ()) in Hops(FileExpansion(Some(lines), p[i - 1]));
    }
  }

  /** A hop of the file's expansion is an edge the file yields, of the same weight. */
  lemma FileHopEdge(lines: seq<LineRead>, a: int, h: Hop<int, ()>)
    requires FileWeightsNonNegative(lines)
    requires h in Hops(FileExpansion(Some(lines), a))
    ensures WeighedFileEdge(lines, a, h.to, h.weight)
  {
    var e := EdgeOfHop(EdgesOf(lines, a).value, h);
    EdgesOfMembership(lines, a, e);
    var i :| 0 <= i < |lines| && Contributes(lines[i], a, e);
    assert IsTriple(lines, i);
  }

  /** The weights of the links along a path are the weights of file edges along it. */
  lemma FileWeighedWalk(lines: seq<LineRead>, link: map<int, Hop<int, ()>>, p: seq<int>)
    requires FileWeightsNonNegative(lines) && p != []
    requires LinkHops(n => FileExpansion(Some(lines), n), link, p)
    ensures WeighedFileWalk(lines, p, LinkWeights(link, p))
  {
    var ws := LinkWeights(link, p);
    forall i | 0 < i < |p|
      ensures WeighedFileEdge(lines, p[i - 1], p[i], ws[i - 1])
    {
      FileHopEdge(lines, p[i - 1], link[p[i]]);
    }
  }

  /** One step of a walk of the search is an edge the file yields. */
  lemma FileStepOfHop(lines: seq<LineRead>, p: seq<int>, i: int)
    requires IsWalk(n => FileExpansion(Some(lines), n), p) && 0 < i < |p|
    ensures FileStep(lines, p[i - 1], p[i])
  {
    var h := WalkStep(n => FileExpansion(Some(lines), n), p, i);
    var e := EdgeOfHop(EdgesOf(lines, p[i - 1]).value, h);
  }

  lemma FileWalk(lines: seq<LineRead>, p: seq<int>)
    requires IsWalk(n => FileExpansion(Some(lines), n), p)
    ensures IsFileWalk(lines, p)
  {
    forall i | 0 < i < |p|
      ensures FileStep(lines, p[i - 1], p[i])
    {
      FileStepOfHop(lines, p, i);
    }
  }

  /**
    hello_world's `dijkstra(start, end)` over the edge file (`None` when it
    cannot be opened). It panics exactly when `start != end` and some
    readable line has a token that is not an `i32`: that makes every lookup
    panic, and the source is expanded first. Otherwise it returns `[start]`
    when `start == end`, else empty exactly when `end` got no distance, and
    otherwise a walk along file edges through the recorded predecessors
    whose weights add up to the distance of `end`; it is never empty when
    some walk along file edges from `start` to `end` weighs less than
    `i32::MAX`.
  */
  method DijkstraFile(file: Option<seq<LineRead>>, start: int, end: int)
    returns (r: Run<seq<int>>, distances: map<int, nat>, predecessors: map<int, int>)
    requires file.Some? ==> FileWeightsNonNegative(file.value)
    ensures r.Panicked? <==> start != end && file.Some? && HasPanickingLine(file.value)
    ensures start == end ==> r == Done([start])
    ensures r.Done? ==> (r.value != [] <==> end in distances)
    ensures r.Done? && r.value != [] && file.Some? ==>
              LinkPath(predecessors, start, end, r.value) && IsFileWalk(file.value, r.value) &&
              exists ws :: WeighedFileWalk(file.value, r.value, ws) && Sum(ws) == distances[end]
    ensures r.Done? && file.None? ==> r.value == (if start == end then [start] else [])
    ensures r.Done? ==> start in distances && distances[start] == 0 && start !in predecessors
    ensures forall p, ws ::
              file.Some? && r.Done? && WeighedFileWalk(file.value, p, ws) && |p| > 0 && p[0] == start &&
              p[|p| - 1] == end && Sum(ws) < I32_MAX
              ==> r.value != []
  {
    var expand := n => FileExpansion(file, n);
    ghost var universe: set<int> := {start};
    if file.Some? {
      FileClosed(file.value, start);
      universe := FileNodes(file.value) + {start};
    }
    var nodes;
    ghost var link, settled;
    r, distances, predecessors, nodes, link, settled := Dijkstra(expand, I32_MAX, start, (), end, true, universe);
    if file.Some? && HasPanickingLine(file.value) && start != end {
      PanicsIff(file.value, start);
      assert expand(settled[0].node).Abort?;
      assert settled[0] in settled;
    }
    if r.Panicked? {
      var last := settled[|settled| - 1].node;
      assert expand(last).Abort?;
      PanicsIff(file.value, last);
    }
    if r.Done? && r.value != [] && file.Some? {
      FileWalk(file.value, r.value);
      FileWeighedWalk(file.value, link, r.value);
    }
    if r.Done? && file.None? && start != end && end in distances {
      assert false;
    }
    forall p, ws | file.Some? && r.Done? && WeighedFileWalk(file.value, p, ws) && |p| > 0 && p[0] == start &&
                   p[|p| - 1] == end && Sum(ws) < I32_MAX
      ensures r.value != []
    {
      FileEdgeWalkIsWalk(file.value, p, ws);
    }
  }
}
