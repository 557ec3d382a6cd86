/**
  The store-backed `dijkstra(src_node, dest_node)` of v2, v4 and the
  get-shortest-path lambdas. The heap holds `State { cost, node }` with the
  whole node row; expanding a row fetches each id of its `adjacency_list`
  from the store (`get_node_by_id` / `query_node_by_id`, whose `unwrap`
  panics when the id is missing) and weighs the hop by the geodesic
  distance between the two rows (`get_distance`, whose `unwrap` panics
  when the distance cannot be computed). Distances are `f64` with `f64::MAX` as the
  distance of an unseen node; the heap's `cmp` and `partial_cmp` disagree,
  so no order of popping is assumed.
*/
module StoreSearch {
  import opened Wrappers
  import opened Decimal
  import opened Reconstruct
  import opened Search

  /** `RawNode { id, lon, lat, adjacency_list }` (v4, get-shortest-path) or `Node` (v2, `String` ids). */
  datatype Row<Id> = Row(id: Id, lon: real, lat: real, adjacency: seq<Id>)

  function Pow2(n: nat): (r: nat)
    ensures r >= 1
  {
    if n == 0 then 1 else 2 * Pow2(n - 1)
  }

  /** `f64::MAX` = (2^53 - 1) * 2^971, the distance of an unseen node. */
  const F64_MAX: nat := 0x1f_ffff_ffff_ffff * Pow2(971)

  /** Every row is stored under its own id (the query is `WHERE id = $1`). */
  ghost predicate Keyed<Id>(store: map<Id, Row<Id>>) {
    forall k :: k in store ==> store[k].id == k
  }

  /** The row a heap entry for `v` carries: the source row itself, or the row fetched for `v`. */
  function RecordOf<Id>(store: map<Id, Row<Id>>, src: Row<Id>, v: Id): Option<Row<Id>> {
    if v == src.id then Some(src) else if v in store then Some(store[v]) else None
  }

  /**
    `get_distance(node_a, node_b)`: the geodesic distance between two rows,
    or the error of `distance_to`, on which the `unwrap` panics.
  */
  type Geodesic<!Id> = (Row<Id>, Row<Id>) -> Result<nat, string>

  /** The next id `k` of `node`'s list cannot be visited: it has no row, or the distance to its row fails. */
  predicate HopFails<Id>(store: map<Id, Row<Id>>, distance: Geodesic<Id>, node: Row<Id>, k: Id) {
    k !in store || distance(node, store[k]).Err?
  }

  /** Expanding `node` panics at one of its adjacency ids. */
  predicate ExpandFails<Id>(store: map<Id, Row<Id>>, distance: Geodesic<Id>, node: Row<Id>) {
    exists k :: k in node.adjacency && HopFails(store, distance, node, k)
  }

  /** When no id of `node`'s list fails, each has a row at a computable distance. */
  lemma NoHopFails<Id>(store: map<Id, Row<Id>>, distance: Geodesic<Id>, node: Row<Id>)
    requires !ExpandFails(store, distance, node)
    ensures forall i :: 0 <= i < |node.adjacency| ==>
              node.adjacency[i] in store && distance(node, store[node.adjacency[i]]).Ok?
  {
    forall i | 0 <= i < |node.adjacency|
      ensures node.adjacency[i] in store && distance(node, store[node.adjacency[i]]).Ok?
    {
      assert node.adjacency[i] in node.adjacency;
    }
  }

  /** The fetched neighbours of `node`, weighed by `get_distance(node, next_node)`, in list order. */
  function NeighbourHops<Id>(store: map<Id, Row<Id>>, distance: Geodesic<Id>, node: Row<Id>, ks: seq<Id>)
    : (hs: seq<Hop<Id, Row<Id>>>)
    requires forall i :: 0 <= i < |ks| ==> ks[i] in store && distance(node, store[ks[i]]).Ok?
    ensures |hs| == |ks|
    ensures forall i :: 0 <= i < |ks| ==> hs[i] == Hop(store[ks[i]].id, distance(node, store[ks[i]]).value, store[ks[i]])
  {
    if ks == [] then []
    else [Hop(store[ks[0]].id, distance(node, store[ks[0]]).value, store[ks[0]])] + NeighbourHops(store, distance, node, ks[1..])
  }

  /**
    What popping `v` does. Either `unwrap` of the loop body panics on an id
    of the list (the panic ends the whole call, so which one is immaterial),
    or every id becomes a hop. An id without a row is never popped (every
    heap entry is the source or a fetched row), so it is given no neighbours.
  */
  function StoreExpansion<Id>(store: map<Id, Row<Id>>, distance: Geodesic<Id>, src: Row<Id>, v: Id)
    : (x: Expansion<Id, Row<Id>>)
    ensures x.Abort? <==> RecordOf(store, src, v).Some? && ExpandFails(store, distance, RecordOf(store, src, v).value)
    ensures x.Skip? <==> RecordOf(store, src, v).None?
    ensures x.Expand? ==> |x.hops| == |RecordOf(store, src, v).value.adjacency|
  {
    match RecordOf(store, src, v)
    case None => Skip
    case Some(node) =>
      if ExpandFails(store, distance, node) then Abort
      else
        NoHopFails(store, distance, node);
        Expand(NeighbourHops(store, distance, node, node.adjacency))
  }

  /** The expansion of `v` panics. */
  predicate ExpandPanics<Id>(store: map<Id, Row<Id>>, distance: Geodesic<Id>, src: Row<Id>, v: Id) {
    RecordOf(store, src, v).Some? && ExpandFails(store, distance, RecordOf(store, src, v).value)
  }

  /**
    No expansion can panic: every id in any adjacency list, the source's
    included, has a row, and the distance to that row can be computed.
  */
  ghost predicate Complete<Id>(store: map<Id, Row<Id>>, distance: Geodesic<Id>, src: Row<Id>) {
    !ExpandFails(store, distance, src) && forall k :: k in store ==> !ExpandFails(store, distance, store[k])
  }

  /** Consecutive ids of `p` are joined through the adjacency list of the first one's row. */
  ghost predicate AdjacencyWalk<Id>(store: map<Id, Row<Id>>, src: Row<Id>, p: seq<Id>) {
    forall i :: 0 < i < |p| ==> AdjacencyStep(store, src, p[i - 1], p[i])
  }

  ghost predicate AdjacencyStep<Id>(store: map<Id, Row<Id>>, src: Row<Id>, a: Id, b: Id) {
    RecordOf(store, src, a).Some? && b in RecordOf(store, src, a).value.adjacency
  }

  /** The geodesic length of the step from `a` to `b`, when both rows exist and it can be computed. */
  function StepLength<Id>(store: map<Id, Row<Id>>, distance: Geodesic<Id>, src: Row<Id>, a: Id, b: Id): nat {
    if RecordOf(store, src, a).Some? && b in store && distance(RecordOf(store, src, a).value, store[b]).Ok?
    then distance(RecordOf(store, src, a).value, store[b]).value
    else 0
  }

  /** The lengths of the steps of `p`, in order. */
  function StepLengths<Id>(store: map<Id, Row<Id>>, distance: Geodesic<Id>, src: Row<Id>, p: seq<Id>): (ls: seq<nat>)
    requires p != []
    ensures |ls| == |p| - 1
    ensures forall i :: 0 < i < |p| ==> ls[i - 1] == StepLength(store, distance, src, p[i - 1], p[i])
  {
    seq(|p| - 1, i requires 0 <= i < |p| - 1 => StepLength(store, distance, src, p[i], p[i + 1]))
  }

  /**
    What the search leaves behind: the source at distance 0 with no
    predecessor; a row for every reached id, namely the row the store holds
    for it; and every predecessor link an adjacency edge whose geodesic
    weight can be computed and fits between the two distances.
  */
  ghost predicate StoreFacts<Id>(store: map<Id, Row<Id>>, distance: Geodesic<Id>, src: Row<Id>,
                                 distances: map<Id, nat>, predecessors: map<Id, Id>, nodes: map<Id, Row<Id>>) {
    src.id in distances && distances[src.id] == 0 && src.id !in predecessors &&
    nodes.Keys == distances.Keys &&
    (forall v :: v in distances ==> distances[v] < F64_MAX) &&
    (forall v :: v in nodes ==> RecordOf(store, src, v) == Some(nodes[v])) &&
    (forall v :: v in predecessors ==>
       v in distances && predecessors[v] in distances &&
       AdjacencyStep(store, src, predecessors[v], v) &&
       distance(nodes[predecessors[v]], nodes[v]).Ok? &&
       distances[predecessors[v]] + distance(nodes[predecessors[v]], nodes[v]).value <= distances[v])
  }

  /** A hop of an expansion leads to the store's row of an adjacent id, weighed by the distance between the rows. */
  lemma HopOf<Id>(store: map<Id, Row<Id>>, distance: Geodesic<Id>, src: Row<Id>, v: Id, h: Hop<Id, Row<Id>>)
    requires Keyed(store)
    requires h in Hops(StoreExpansion(store, distance, src, v))
    ensures h.to in store && h.rec == store[h.to]
    ensures RecordOf(store, src, v).Some? && h.to in RecordOf(store, src, v).value.adjacency
    ensures distance(RecordOf(store, src, v).value, store[h.to]).Ok?
    ensures h.weight == distance(RecordOf(store, src, v).value, store[h.to]).value
    ensures h.weight == StepLength(store, distance, src, v, h.to)
  {
    var node := RecordOf(store, src, v).value;
    NoHopFails(store, distance, node);
    var hs := NeighbourHops(store, distance, node, node.adjacency);
    var i :| 0 <= i < |hs| && hs[i] == h;
    assert node.adjacency[i] in node.adjacency;
  }

  lemma StoreClosed<Id(!new)>(store: map<Id, Row<Id>>, distance: Geodesic<Id>, src: Row<Id>)
    requires Keyed(store)
    ensures Closed(v => StoreExpansion(store, distance, src, v), store.Keys + {src.id})
  {
    forall v, h | h in Hops(StoreExpansion(store, distance, src, v))
      ensures h.to in store.Keys + {src.id}
    {
      HopOf(store, distance, src, v, h);
    }
  }

  lemma FactsOfConsistent<Id(!new)>(store: map<Id, Row<Id>>, distance: Geodesic<Id>, src: Row<Id>,
                              distances: map<Id, nat>, predecessors: map<Id, Id>, nodes: map<Id, Row<Id>>,
                              link: map<Id, Hop<Id, Row<Id>>>)
    requires Keyed(store)
    requires Consistent(v => StoreExpansion(store, distance, src, v), F64_MAX, src.id, distances, predecessors, nodes, link)
    requires nodes[src.id] == src
    ensures StoreFacts(store, distance, src, distances, predecessors, nodes)
  {
    var expand := v => StoreExpansion(store, distance, src, v);
    forall v | v in nodes
      ensures RecordOf(store, src, v) == Some(nodes[v])
    {
      if v != src.id {
        assert v in predecessors;
        assert Justified(expand, distances, predecessors, nodes, link, v);
        HopOf(store, distance, src, predecessors[v], link[v]);
      }
    }
    forall v | v in predecessors
      ensures AdjacencyStep(store, src, predecessors[v], v)
      ensures distance(nodes[predecessors[v]], nodes[v]).Ok?
      ensures distances[predecessors[v]] + distance(nodes[predecessors[v]], nodes[v]).value <= distances[v]
    {
      assert Justified(expand, distances, predecessors, nodes, link, v);
      HopOf(store, distance, src, predecessors[v], link[v]);
    }
  }

  lemma WalkIsAdjacencyWalk<Id(!new)>(store: map<Id, Row<Id>>, distance: Geodesic<Id>, src: Row<Id>, p: seq<Id>)
    requires Keyed(store)
    requires IsWalk(v => StoreExpansion(store, distance, src, v), p)
    ensures AdjacencyWalk(store, src, p)
  {
    forall i | 0 < i < |p|
      ensures AdjacencyStep(store, src, p[i - 1], p[i])
    {
      var h := WalkStep(v => StoreExpansion(store, distance, src, v), p, i);
      HopOf(store, distance, src, p[i - 1], h);
    }
  }

  /** The hops that justify the links along a path weigh exactly the geodesic lengths of its steps. */
  lemma LinkWeightsAreLengths<Id(!new)>(store: map<Id, Row<Id>>, distance: Geodesic<Id>, src: Row<Id>,
                                        link: map<Id, Hop<Id, Row<Id>>>, p: seq<Id>)
    requires Keyed(store) && p != []
    requires LinkHops(v => StoreExpansion(store, distance, src, v), link, p)
    ensures LinkWeights(link, p) == StepLengths(store, distance, src, p)
  {
    var ws, ls := LinkWeights(link, p), StepLengths(store, distance, src, p);
    forall j | 0 <= j < |ws|
      ensures ws[j] == ls[j]
    {
      LinkWeightIsLength(store, distance, src, link, p[j], p[j + 1]);
    }
  }

  lemma LinkWeightIsLength<Id(!new)>(store: map<Id, Row<Id>>, distance: Geodesic<Id>, src: Row<Id>,
                                     link: map<Id, Hop<Id, Row<Id>>>, a: Id, b: Id)
    requires Keyed(store)
    requires b in link && link[b] in Hops(StoreExpansion(store, distance, src, a)) && link[b].to == b
    ensures link[b].weight == StepLength(store, distance, src, a, b)
  {
    HopOf(store, distance, src, a, link[b]);
  }

  /**
    `p` walks along adjacency lists from the source to `dest`, and its
    geodesic length stays below `f64::MAX`, the distance of an unseen node.
  */
  ghost predicate StoreWalkTo<Id>(store: map<Id, Row<Id>>, distance: Geodesic<Id>, src: Row<Id>, dest: Row<Id>, p: seq<Id>) {
    AdjacencyWalk(store, src, p) && |p| > 0 && p[0] == src.id && p[|p| - 1] == dest.id &&
    Sum(StepLengths(store, distance, src, p)) < F64_MAX
  }

  /** An adjacency step out of a row whose expansion does not panic is a hop, weighed by its geodesic length. */
  lemma StepIsHop<Id(!new)>(store: map<Id, Row<Id>>, distance: Geodesic<Id>, src: Row<Id>, a: Id, b: Id)
    requires Keyed(store)
    requires AdjacencyStep(store, src, a, b) && !StoreExpansion(store, distance, src, a).Abort?
    ensures HopStep(v => StoreExpansion(store, distance, src, v), a, b, StepLength(store, distance, src, a, b))
  {
    var node := RecordOf(store, src, a).value;
    NoHopFails(store, distance, node);
    var k :| 0 <= k < |node.adjacency| && node.adjacency[k] == b;
    var hs := NeighbourHops(store, distance, node, node.adjacency);
    assert hs[k] in Hops(StoreExpansion(store, distance, src, a));
  }

  /**
    When every reached node is relaxed, an adjacency walk from the source
    that is shorter than `f64::MAX`, the unseen distance, ends at a reached node.
  */
  lemma {:induction false} NoCheapWalk<Id(!new)>(store: map<Id, Row<Id>>, distance: Geodesic<Id>, src: Row<Id>,
                                                 distances: map<Id, nat>, p: seq<Id>)
    requires Keyed(store) && src.id in distances && distances[src.id] == 0
    requires AllRelaxed(v => StoreExpansion(store, distance, src, v), F64_MAX, distances)
    requires AdjacencyWalk(store, src, p) && |p| > 0 && p[0] == src.id
    requires Sum(StepLengths(store, distance, src, p)) < F64_MAX
    ensures p[|p| - 1] in distances
  {
    var expand := v => StoreExpansion(store, distance, src, v);
    var ws := StepLengths(store, distance, src, p);
    forall i | 0 < i < |p| && p[i - 1] in distances
      ensures HopStep(expand, p[i - 1], p[i], ws[i - 1])
    {
      assert Relaxed(expand, F64_MAX, distances, p[i - 1]);
      assert AdjacencyStep(store, src, p[i - 1], p[i]);
      StepIsHop(store, distance, src, p[i - 1], p[i]);
    }
    RelaxedReach(expand, F64_MAX, distances, p, ws);
  }

  /** The destination test compares `to_string()`s, which is comparing the `i64` ids. */
  lemma SameIdText(a: int, b: int)
    ensures Show(a) == Show(b) <==> a == b
  {
    if Show(a) == Show(b) {
      ShowInjective(a, b);
    }
  }

  /**
    `dijkstra(src_node, dest_node)` over the store. It panics only when an
    expanded row lists an id the store lacks or whose distance fails, and
    never when no expansion can. Otherwise the path is `[src.id]` when
    source and destination coincide, else empty exactly when the
    destination got no distance, and otherwise a walk along adjacency lists
    from `src.id` to `dest.id` through the recorded predecessors whose
    geodesic length is at most the distance recorded for `dest.id`; the
    maps satisfy `StoreFacts`. The path is never empty when some adjacency
    walk from the source to `dest` is shorter than `f64::MAX`.
  */
  method StoreDijkstra<Id(==,!new)>(store: map<Id, Row<Id>>, distance: Geodesic<Id>, src: Row<Id>, dest: Row<Id>)
    returns (r: Run<seq<Id>>, distances: map<Id, nat>, predecessors: map<Id, Id>, nodes: map<Id, Row<Id>>,
             ghost settled: seq<Entry<Id>>)
    requires Keyed(store)
    ensures r.Panicked? ==> |settled| > 0 && ExpandPanics(store, distance, src, settled[|settled| - 1].node)
    ensures r.Done? ==> forall e :: e in settled ==> !ExpandPanics(store, distance, src, e.node)
    ensures Complete(store, distance, src) ==> r.Done?
    ensures forall e :: e in settled ==> e.node != dest.id
    ensures src.id == dest.id ==> r == Done([src.id])
    ensures r.Done? ==> (r.value != [] <==> dest.id in distances)
    ensures r.Done? && r.value != [] ==>
              LinkPath(predecessors, src.id, dest.id, r.value) && AdjacencyWalk(store, src, r.value)
    ensures r.Done? && r.value != [] ==> Sum(StepLengths(store, distance, src, r.value)) <= distances[dest.id]
    ensures r.Done? ==> StoreFacts(store, distance, src, distances, predecessors, nodes)
    ensures forall p :: r.Done? && StoreWalkTo(store, distance, src, dest, p) ==> r.value != []
  {
    var expand := v => StoreExpansion(store, distance, src, v);
    StoreClosed(store, distance, src);
    ghost var link;
    r, distances, predecessors, nodes, link, settled :=
      Dijkstra(expand, F64_MAX, src.id, src, dest.id, false, store.Keys + {src.id});
    if r.Done? {
      FactsOfConsistent(store, distance, src, distances, predecessors, nodes, link);
      if r.value != [] {
        WalkIsAdjacencyWalk(store, distance, src, r.value);
        LinkWeightsAreLengths(store, distance, src, link, r.value);
      } else {
        forall p | StoreWalkTo(store, distance, src, dest, p)
          ensures false
        {
          NoCheapWalk(store, distance, src, distances, p);
        }
      }
    }
  }

  /** Every id of a path through the recorded predecessors was reached. */
  lemma PathReached<Id>(store: map<Id, Row<Id>>, distance: Geodesic<Id>, src: Row<Id>, distances: map<Id, nat>,
                        predecessors: map<Id, Id>, nodes: map<Id, Row<Id>>, dest: Id, p: seq<Id>)
    requires StoreFacts(store, distance, src, distances, predecessors, nodes)
    requires LinkPath(predecessors, src.id, dest, p)
    ensures forall i :: 0 <= i < |p| ==> p[i] in distances
  {
    forall i | 0 <= i < |p|
      ensures p[i] in distances
    {
      if i > 0 {
        assert p[i] in predecessors;
      }
    }
  }

  /** `[node.lon, node.lat]`. */
  function LonLat<Id>(node: Row<Id>): (c: seq<real>)
    ensures |c| == 2 && c[0] == node.lon && c[1] == node.lat
  {
    [node.lon, node.lat]
  }

  function LonLats<Id>(rows: seq<Row<Id>>): (cs: seq<seq<real>>)
    ensures |cs| == |rows| && forall i :: 0 <= i < |rows| ==> cs[i] == LonLat(rows[i])
  {
    if rows == [] then [] else [LonLat(rows[0])] + LonLats(rows[1..])
  }

  /**
    get-shortest-path's `dijkstra`, which also records the row of every
    relaxed node and returns `[lon, lat]` per path id. The `unwrap` in the
    conversion never fails: every path id was reached, so its row is there.
    The result is empty exactly when the id path is, and otherwise holds the
    coordinates of the store's row for each id of a walk from `src` to `dest`.
  */
  method StoreDijkstraCoordinates<Id(==,!new)>(store: map<Id, Row<Id>>, distance: Geodesic<Id>,
                                               src: Row<Id>, dest: Row<Id>)
    returns (r: Run<seq<seq<real>>>, ghost ids: seq<Id>)
    requires Keyed(store)
    ensures r.Panicked? ==> exists v :: ExpandPanics(store, distance, src, v)
    ensures Complete(store, distance, src) ==> r.Done?
    ensures src.id == dest.id ==> r == Done([LonLat(src)])
    ensures r.Done? ==> |r.value| == |ids|
    ensures r.Done? && ids != [] ==> ids[0] == src.id && ids[|ids| - 1] == dest.id && AdjacencyWalk(store, src, ids)
    ensures r.Done? ==> forall i :: 0 <= i < |ids| ==>
              RecordOf(store, src, ids[i]).Some? && r.value[i] == LonLat(RecordOf(store, src, ids[i]).value)
    ensures forall p :: r.Done? && StoreWalkTo(store, distance, src, dest, p) ==> r.value != []
  {
    var path, distances, predecessors, nodes;
    ghost var settled;
    path, distances, predecessors, nodes, settled := StoreDijkstra(store, distance, src, dest);
    if path.Panicked? {
      assert ExpandPanics(store, distance, src, settled[|settled| - 1].node);
      r, ids := Panicked, [];
      return;
    }
    var found := path.value;
    ids := found;
    if ids != [] {
      PathReached(store, distance, src, distances, predecessors, nodes, dest.id, ids);
    }
    var rows := ToCoordinates(found, nodes);
    r := Done(LonLats(rows.value));
    if src.id == dest.id {
      assert RecordOf(store, src, src.id) == Some(nodes[src.id]);
      assert rows.value == [src];
      assert LonLats(rows.value) == [LonLat(src)];
    }
  }
}
