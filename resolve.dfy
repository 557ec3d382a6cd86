/**
  Node lookups of the store layers: `find_closest_node` (v2, v3, v4), the
  empty-result branch of v4's `query_node_by_coordinates`, and v2/v3's
  `query_nodes_by_id` and `get_adjacency_nodes_from_id`. Query results and
  the geodesic distance to the target are parameters.
*/
module Resolve {
  import opened Wrappers
  import opened StoreSearch
  import opened FilterMaps

  /** `f64::MAX`, where `closest_distance` starts. */
  const F64_MAX_REAL: real := F64_MAX as real

  /** `target.distance_to(node)` in metres, or the library's error (the `unwrap` then panics). */
  type Measure<!N> = N -> Result<real, string>

  /** Every node's distance to the target can be computed. */
  predicate Measurable<N>(nodes: seq<N>, distanceTo: Measure<N>) {
    forall j :: 0 <= j < |nodes| ==> distanceTo(nodes[j]).Ok?
  }

  /**
    `c` is the first node of `nodes` at the least distance, and that
    distance is below `f64::MAX`.
  */
  ghost predicate IsFirstClosest<N>(nodes: seq<N>, distanceTo: Measure<N>, c: N)
    requires Measurable(nodes, distanceTo)
  {
    exists i :: 0 <= i < |nodes| && nodes[i] == c && distanceTo(nodes[i]).value < F64_MAX_REAL &&
      (forall j :: 0 <= j < |nodes| ==> distanceTo(nodes[i]).value <= distanceTo(nodes[j]).value) &&
      (forall j :: 0 <= j < i ==> distanceTo(nodes[j]).value > distanceTo(nodes[i]).value)
  }

  /**
    `find_closest_node`: scan the nodes, keeping one only when it is
    strictly closer than the best so far (which starts at `f64::MAX`). It
    panics exactly when some distance cannot be computed; otherwise the
    result is `None` exactly when no node is closer than `f64::MAX`, and
    else the first node at the least distance.
  */
  method FindClosestNode<N>(nodes: seq<N>, distanceTo: Measure<N>) returns (r: Run<Option<N>>)
    ensures r.Panicked? <==> !Measurable(nodes, distanceTo)
    ensures r.Done? ==> (r.value.None? <==> forall j :: 0 <= j < |nodes| ==> distanceTo(nodes[j]).value >= F64_MAX_REAL)
    ensures r.Done? && r.value.Some? ==> IsFirstClosest(nodes, distanceTo, r.value.value)
  {
    var closest: Option<N> := None;
    var closestDistance := F64_MAX_REAL;
    ghost var at := -1;
    for k := 0 to |nodes|
      invariant Scanned(nodes, distanceTo, k, closest, closestDistance, at)
    {
      var measured := distanceTo(nodes[k]);
      if measured.Err? {
        return Panicked;
      }
      var distance := measured.value;
      if distance < closestDistance {
        ScanKeep(nodes, distanceTo, k, closest, closestDistance, at);
        closestDistance := distance;
        closest := Some(nodes[k]);
        at := k;
      } else {
        ScanSkip(nodes, distanceTo, k, closest, closestDistance, at);
      }
    }
    ScanDone(nodes, distanceTo, closest, closestDistance, at);
    r := Done(closest);
  }

  /**
    The loop's state after the first `k` nodes: all of them measured, and
    either none closer than `f64::MAX` (nothing kept), or the kept node is
    the first of them at the least distance, which is below `f64::MAX`.
  */
  ghost predicate Scanned<N>(nodes: seq<N>, distanceTo: Measure<N>, k: int, closest: Option<N>, closestDistance: real, at: int) {
    0 <= k <= |nodes| &&
    (forall j :: 0 <= j < k ==> distanceTo(nodes[j]).Ok?) &&
    (closest.None? <==> at == -1) &&
    (closest.None? ==> closestDistance == F64_MAX_REAL &&
                       forall j :: 0 <= j < k ==> distanceTo(nodes[j]).value >= F64_MAX_REAL) &&
    (closest.Some? ==>
       0 <= at < k && nodes[at] == closest.value && closestDistance == distanceTo(nodes[at]).value &&
       closestDistance < F64_MAX_REAL &&
       (forall j :: 0 <= j < k ==> closestDistance <= distanceTo(nodes[j]).value) &&
       (forall j :: 0 <= j < at ==> distanceTo(nodes[j]).value > closestDistance))
  }

  /** One more measured node, strictly closer than the best so far: it is kept. */
  lemma ScanKeep<N>(nodes: seq<N>, distanceTo: Measure<N>, k: int, closest: Option<N>, closestDistance: real, at: int)
    requires Scanned(nodes, distanceTo, k, closest, closestDistance, at)
    requires k < |nodes| && distanceTo(nodes[k]).Ok? && distanceTo(nodes[k]).value < closestDistance
    ensures Scanned(nodes, distanceTo, k + 1, Some(nodes[k]), distanceTo(nodes[k]).value, k)
  {
  }

  /** One more measured node, no closer than the best so far: the state stays. */
  lemma ScanSkip<N>(nodes: seq<N>, distanceTo: Measure<N>, k: int, closest: Option<N>, closestDistance: real, at: int)
    requires Scanned(nodes, distanceTo, k, closest, closestDistance, at)
    requires k < |nodes| && distanceTo(nodes[k]).Ok? && distanceTo(nodes[k]).value >= closestDistance
    ensures Scanned(nodes, distanceTo, k + 1, closest, closestDistance, at)
  {
  }

  /** After the last node the scan's state is the method's result. */
  lemma ScanDone<N>(nodes: seq<N>, distanceTo: Measure<N>, closest: Option<N>, closestDistance: real, at: int)
    requires Scanned(nodes, distanceTo, |nodes|, closest, closestDistance, at)
    ensures Measurable(nodes, distanceTo)
    ensures closest.None? <==> forall j :: 0 <= j < |nodes| ==> distanceTo(nodes[j]).value >= F64_MAX_REAL
    ensures closest.Some? ==> IsFirstClosest(nodes, distanceTo, closest.value)
  {
    if closest.Some? {
      assert distanceTo(nodes[at]).value < F64_MAX_REAL;
    }
  }

  /** Geodesic distances are finite: then there is a closest node exactly when there are nodes. */
  lemma ClosestExistsIffNonEmpty<N>(nodes: seq<N>, distanceTo: Measure<N>, c: Option<N>)
    requires Measurable(nodes, distanceTo)
    requires forall j :: 0 <= j < |nodes| ==> distanceTo(nodes[j]).value < F64_MAX_REAL
    requires c.None? <==> forall j :: 0 <= j < |nodes| ==> distanceTo(nodes[j]).value >= F64_MAX_REAL
    ensures c.None? <==> nodes == []
  {
    if nodes != [] {
      assert distanceTo(nodes[0]).value < F64_MAX_REAL;
    }
  }

  /** Ties: the chosen node occurs no later than any node at the least distance. */
  lemma EarliestTieWins<N>(nodes: seq<N>, distanceTo: Measure<N>, c: N, i: int)
    requires Measurable(nodes, distanceTo) && IsFirstClosest(nodes, distanceTo, c)
    requires 0 <= i < |nodes| && forall j :: 0 <= j < |nodes| ==> distanceTo(nodes[i]).value <= distanceTo(nodes[j]).value
    ensures exists k :: 0 <= k <= i && nodes[k] == c
  {
    var k :| 0 <= k < |nodes| && nodes[k] == c && distanceTo(nodes[k]).value < F64_MAX_REAL &&
             (forall m :: 0 <= m < |nodes| ==> distanceTo(nodes[k]).value <= distanceTo(nodes[m]).value) &&
             (forall m :: 0 <= m < k ==> distanceTo(nodes[m]).value > distanceTo(nodes[k]).value);
    if k > i {
      assert false;
    }
  }

  /**
    v4's `query_node_by_coordinates` over the rows of the bounding-box
    query: the query's error is passed on, no rows is `Ok(None)`, and
    otherwise the closest row.
  */
  method QueryNodeByCoordinates<N>(rows: Result<seq<N>, IoError>, distanceTo: Measure<N>)
    returns (r: Run<Result<Option<N>, IoError>>)
    ensures rows.Err? ==> r == Done(Err(rows.error))
    ensures rows == Ok([]) ==> r == Done(Ok(None))
    ensures rows.Ok? ==> (r.Panicked? <==> !Measurable(rows.value, distanceTo))
    ensures rows.Ok? && r.Done? ==>
              r.value.Ok? &&
              (r.value.value.None? <==> forall j :: 0 <= j < |rows.value| ==> distanceTo(rows.value[j]).value >= F64_MAX_REAL)
    ensures rows.Ok? && r.Done? && r.value.value.Some? ==> IsFirstClosest(rows.value, distanceTo, r.value.value.value)
  {
    if rows.Err? {
      return Done(Err(rows.error));
    }
    if rows.value == [] {
      return Done(Ok(None));
    }
    var closest := FindClosestNode(rows.value, distanceTo);
    r := if closest.Panicked? then Panicked else Done(Ok(closest.value));
  }

  // ---------------------------------------------------------------------------
  // Lookups by id (v2, v3)

  /** `query_node_by_id`: the item stored under the id, or `None`. */
  function Lookup<Id>(store: map<Id, Row<Id>>, id: Id): Option<Row<Id>> {
    if id in store then Some(store[id]) else None
  }

  /** The rows found for `ids`, in the order of `ids`; ids without a row are dropped. */
  function Found<Id>(store: map<Id, Row<Id>>, ids: seq<Id>): seq<Row<Id>> {
    FilterMap(id => Lookup(store, id), ids)
  }

  /** `query_nodes_by_id`: look each id up in turn, pushing the rows that exist. */
  method QueryNodesById<Id>(store: map<Id, Row<Id>>, ids: seq<Id>) returns (nodes: seq<Row<Id>>)
    ensures nodes == Found(store, ids)
  {
    nodes := [];
    for k := 0 to |ids|
      invariant nodes == Found(store, ids[..k])
    {
      var node := Lookup(store, ids[k]);
      if node.Some? {
        nodes := nodes + [node.value];
      }
      FilterMapAppend(id => Lookup(store, id), ids[..k], [ids[k]]);
      assert ids[..k + 1] == ids[..k] + [ids[k]];
      assert [ids[k]][1..] == [];
    }
    assert ids[..|ids|] == ids;
  }

  /** A row is found iff some id of the list has it in the store; nothing else is returned. */
  lemma FoundMembership<Id>(store: map<Id, Row<Id>>, ids: seq<Id>, n: Row<Id>)
    ensures n in Found(store, ids) <==> exists i :: 0 <= i < |ids| && ids[i] in store && store[ids[i]] == n
  {
    FilterMapMembership(id => Lookup(store, id), ids, n);
  }

  /** When every id has a row, nothing is dropped: one row per id, in order. */
  lemma FoundAll<Id>(store: map<Id, Row<Id>>, ids: seq<Id>)
    requires forall i :: 0 <= i < |ids| ==> ids[i] in store
    ensures |Found(store, ids)| == |ids|
    ensures forall i :: 0 <= i < |ids| ==> Found(store, ids)[i] == store[ids[i]]
  {
    FilterMapTotal(id => Lookup(store, id), ids);
  }

  /** An id without a row is skipped silently: the result is as if it were not listed. */
  lemma MissingIdDropped<Id>(store: map<Id, Row<Id>>, a: seq<Id>, id: Id, b: seq<Id>)
    requires id !in store
    ensures Found(store, a + [id] + b) == Found(store, a + b)
  {
    FilterMapDrops(id => Lookup(store, id), a, id, b);
  }

  /**
    `get_adjacency_nodes_from_id`: the rows of the node's adjacency list,
    in list order, or nothing when the node itself is missing.
  */
  method GetAdjacencyNodesFromId<Id>(store: map<Id, Row<Id>>, nodeId: Id) returns (adjacent: seq<Row<Id>>)
    ensures nodeId !in store ==> adjacent == []
    ensures nodeId in store ==> adjacent == Found(store, store[nodeId].adjacency)
  {
    var node := Lookup(store, nodeId);
    match node
    case Some(n) =>
      adjacent := QueryNodesById(store, n.adjacency);
    case None =>
      adjacent := [];
  }
}
