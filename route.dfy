/**
  `get_shortest_path(start, end)` of v4 and the get-shortest-path lambdas:
  resolve both waypoints to nodes of the store, then search between them.
  The lookup `get_node_by_lat_lon` (a PostGIS query) is a parameter.
*/
module Route {
  import opened Wrappers
  import opened Reconstruct
  import opened StoreSearch
  import Stitch

  /** A waypoint `(lat, lon)`. */
  datatype Point = Point(lat: real, lon: real)

  type Locate = Point -> Result<Option<Row<int>>, IoError>

  const SOURCE_NOT_FOUND: string := "Source node not found"
  const DESTINATION_NOT_FOUND: string := "Destination node not found"

  /**
    Both waypoints as nodes, the source first: a lookup error is passed on,
    a lookup that finds nothing is a `NotFound` error naming the endpoint.
  */
  function Endpoints(locate: Locate, start: Point, end: Point): (r: Result<(Row<int>, Row<int>), IoError>)
    ensures r.Ok? <==> locate(start).Ok? && locate(start).value.Some? && locate(end).Ok? && locate(end).value.Some?
    ensures r.Ok? ==> r.value == (locate(start).value.value, locate(end).value.value)
    ensures locate(start).Err? ==> r == Err(locate(start).error)
    ensures locate(start) == Ok(None) ==> r == Err(IoError(NotFound, SOURCE_NOT_FOUND))
    ensures locate(start).Ok? && locate(start).value.Some? ==>
              (locate(end).Err? ==> r == Err(locate(end).error)) &&
              (locate(end) == Ok(None) ==> r == Err(IoError(NotFound, DESTINATION_NOT_FOUND)))
  {
    match locate(start)
    case Err(e) => Err(e)
    case Ok(None) => Err(IoError(NotFound, SOURCE_NOT_FOUND))
    case Ok(Some(src)) =>
      match locate(end)
      case Err(e) => Err(e)
      case Ok(None) => Err(IoError(NotFound, DESTINATION_NOT_FOUND))
      case Ok(Some(dest)) => Ok((src, dest))
  }

  /** `p` is a route of the search from `src` to `dest`: empty, or a walk along adjacency lists between them. */
  ghost predicate IsRoute(store: map<int, Row<int>>, src: Row<int>, dest: Row<int>, p: seq<int>) {
    (src.id == dest.id ==> p == [src.id]) &&
    (p != [] ==> p[0] == src.id && p[|p| - 1] == dest.id && AdjacencyWalk(store, src, p))
  }

  /**
    `get_shortest_path`: a resolution error is the result; otherwise the
    search between the two nodes, which panics only when an expanded row
    lists an id the store lacks or whose distance fails, and yields a route.
  */
  method GetShortestPath(store: map<int, Row<int>>, distance: Geodesic<int>, locate: Locate,
                         start: Point, end: Point)
    returns (r: Run<Result<seq<int>, IoError>>)
    requires Keyed(store)
    ensures Endpoints(locate, start, end).Err? ==> r == Done(Err(Endpoints(locate, start, end).error))
    ensures Endpoints(locate, start, end).Ok? ==>
              var (src, dest) := Endpoints(locate, start, end).value;
              (Complete(store, distance, src) ==> r.Done?) &&
              (r.Panicked? ==> exists v :: ExpandPanics(store, distance, src, v)) &&
              (r.Done? ==> r.value.Ok? && IsRoute(store, src, dest, r.value.value)) &&
              (forall p :: r.Done? && StoreWalkTo(store, distance, src, dest, p) ==> r.value.value != [])
  {
    match Endpoints(locate, start, end)
    case Err(e) =>
      r := Done(Err(e));
    case Ok((src, dest)) =>
      var path, distances, predecessors, nodes;
      ghost var settled;
      path, distances, predecessors, nodes, settled := StoreDijkstra(store, distance, src, dest);
      if path.Panicked? {
        assert ExpandPanics(store, distance, src, settled[|settled| - 1].node);
      }
      r := if path.Panicked? then Panicked else Done(Ok(path.value));
  }

  /** Every row the lookup returns is the store's row for its id. */
  ghost predicate LocatesStoreRows(store: map<int, Row<int>>, locate: Locate) {
    forall p :: locate(p).Ok? && locate(p).value.Some? ==>
      locate(p).value.value.id in store && store[locate(p).value.value.id] == locate(p).value.value
  }

  /** `b` is in the adjacency list of the store's row for `a`. */
  ghost predicate StoreStep(store: map<int, Row<int>>, a: int, b: int) {
    a in store && b in store[a].adjacency
  }

  lemma RouteIsStoreWalk(store: map<int, Row<int>>, src: Row<int>, dest: Row<int>, p: seq<int>)
    requires src.id in store && store[src.id] == src
    requires IsRoute(store, src, dest, p)
    ensures Stitch.Chained((a, b) => StoreStep(store, a, b), p)
  {
    forall i | 0 < i < |p|
      ensures StoreStep(store, p[i - 1], p[i])
    {
      assert AdjacencyStep(store, src, p[i - 1], p[i]);
    }
  }

  /**
    A multi-waypoint route over `get_shortest_path`: when every segment
    gives a non-empty route, `get_shortest_path_multiple` returns one walk
    along the store's adjacency lists from the first waypoint's node to the
    last one's, through every junction once.
  */
  lemma StitchedRoute(store: map<int, Row<int>>, locate: Locate, points: seq<Point>,
                      segment: (Point, Point) -> Run<Result<seq<int>, IoError>>)
    requires LocatesStoreRows(store, locate) && |points| >= 2
    requires forall i :: 0 <= i < |points| ==> locate(points[i]).Ok? && locate(points[i]).value.Some?
    requires forall p, q :: Endpoints(locate, p, q).Ok? && segment(p, q).Done? && segment(p, q).value.Ok? ==>
               IsRoute(store, Endpoints(locate, p, q).value.0, Endpoints(locate, p, q).value.1, segment(p, q).value.value)
    requires forall i :: 0 <= i < |points| - 1 ==>
               Stitch.SegmentOk(points, segment, i) && segment(points[i], points[i + 1]).value.value != []
    ensures Stitch.Stitched(points, segment).Done? && Stitch.Stitched(points, segment).value.Ok?
    ensures var p := Stitch.Stitched(points, segment).value.value;
            |p| > 0 && p[0] == locate(points[0]).value.value.id &&
            p[|p| - 1] == locate(points[|points| - 1]).value.value.id &&
            Stitch.Chained((a, b) => StoreStep(store, a, b), p)
  {
    var at := (p: Point) => if locate(p).Ok? && locate(p).value.Some? then locate(p).value.value.id else 0;
    var step := (a, b) => StoreStep(store, a, b);
    forall i | 0 <= i < |points| - 1
      ensures Stitch.SegmentWalk(points, segment, at, step, i)
    {
      assert Stitch.SegmentOk(points, segment, i);
      var src := locate(points[i]).value.value;
      var dest := locate(points[i + 1]).value.value;
      assert Endpoints(locate, points[i], points[i + 1]).value == (src, dest);
      RouteIsStoreWalk(store, src, dest, segment(points[i], points[i + 1]).value.value);
    }
    Stitch.StitchedIsWalk(points, segment, at, step);
  }
}
