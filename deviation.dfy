/**
  v5's route-deviation check: the user's stored location and route are
  JSON values; the user is on the route when the location lies, up to a
  tolerance, on one of the segments between consecutive route points, by
  the distance-sum test. The geodesic distance (`Location::distance_to`,
  which can fail) is a parameter.
*/
module Deviation {
  import opened Wrappers
  import opened FilterMaps

  /** A `serde_json::Value`; every JSON number is an `f64`, modelled as a real. */
  datatype Json =
    | Null
    | Bool(b: bool)
    | Number(n: real)
    | Str(s: string)
    | Array(items: seq<Json>)
    | Object(fields: seq<(string, Json)>)

  datatype Coordinate = Coordinate(latitude: real, longitude: real)

  /** The columns of a `users` row that the check reads. */
  datatype User = User(username: string, currentLocation: Option<Json>,
                       currentRouteNodeIds: seq<int>, currentRouteNodeCoordinates: Option<Json>)

  /** `Location::distance_to(..).meters()`: a distance in metres, or the library's error text. */
  type Distance = (Coordinate, Coordinate) -> Result<real, string>

  /** Metres by which the two legs may exceed the segment. */
  const DISTANCE_TOLERANCE: real := 0.01

  const LOCATION_NOT_FOUND: string := "User location not found"
  const ROUTE_NOT_FOUND: string := "Route coordinates not found"
  const TOO_FEW_POINTS: string := "Route must have at least two points"
  const SEGMENT_ERROR: string := "Error checking segment: "

  function AsF64(j: Json): Option<real> {
    if j.Number? then Some(j.n) else None
  }

  /** `parse_coordinates`: a two-element array of numbers, latitude first. */
  function ParseCoordinates(json: Json): (c: Option<Coordinate>)
    ensures c.Some? <==> json.Array? && |json.items| == 2 && json.items[0].Number? && json.items[1].Number?
    ensures c.Some? ==> c.value == Coordinate(json.items[0].n, json.items[1].n)
  {
    if json.Array? && |json.items| == 2 then
      match (AsF64(json.items[0]), AsF64(json.items[1]))
      case (Some(latitude), Some(longitude)) => Some(Coordinate(latitude, longitude))
      case _ => None
    else None
  }

  /** One coordinate as `json!` writes a `vec![lat, lon]`. */
  function EncodeCoordinate(c: Coordinate): Json {
    Array([Number(c.latitude), Number(c.longitude)])
  }

  /** Parsing inverts encoding, and a JSON value that parses is the encoding of what it parses to. */
  lemma CoordinateRoundTrip(c: Coordinate, json: Json)
    ensures ParseCoordinates(EncodeCoordinate(c)) == Some(c)
    ensures ParseCoordinates(json) == Some(c) ==> json == EncodeCoordinate(c)
  {
    if ParseCoordinates(json) == Some(c) {
      assert json.items == [Number(c.latitude), Number(c.longitude)];
    }
  }

  /** `parse_route_coordinates`: on an array, the entries that parse, in order; otherwise `None`. */
  function ParseRouteCoordinates(json: Json): (r: Option<seq<Coordinate>>)
    ensures r.Some? <==> json.Array?
    ensures r.Some? ==> |r.value| <= |json.items|
  {
    if json.Array? then Some(FilterMap(ParseCoordinates, json.items)) else None
  }

  /** A coordinate is in the parsed route iff some entry of the array parses to it. */
  lemma RouteMembership(json: Json, c: Coordinate)
    requires json.Array?
    ensures c in ParseRouteCoordinates(json).value <==>
            exists i :: 0 <= i < |json.items| && ParseCoordinates(json.items[i]) == Some(c)
  {
    FilterMapMembership(ParseCoordinates, json.items, c);
  }

  /** A malformed entry is dropped without trace; the others keep their order. */
  lemma MalformedEntryDropped(a: seq<Json>, bad: Json, b: seq<Json>)
    requires ParseCoordinates(bad).None?
    ensures ParseRouteCoordinates(Array(a + [bad] + b)) == ParseRouteCoordinates(Array(a + b))
  {
    FilterMapDrops(ParseCoordinates, a, bad, b);
  }

  /** A route as `update_user_route_node_coordinates` stores it: an array of `[lat, lon]` pairs. */
  function EncodeRoute(route: seq<Coordinate>): (json: Json)
    ensures json.Array? && |json.items| == |route|
    ensures forall i :: 0 <= i < |route| ==> json.items[i] == EncodeCoordinate(route[i])
  {
    Array(seq(|route|, i requires 0 <= i < |route| => EncodeCoordinate(route[i])))
  }

  /** A stored route reads back as itself. */
  lemma RouteRoundTrip(route: seq<Coordinate>)
    ensures ParseRouteCoordinates(EncodeRoute(route)) == Some(route)
  {
    var items := EncodeRoute(route).items;
    forall i | 0 <= i < |items|
      ensures ParseCoordinates(items[i]) == Some(route[i])
    {
      CoordinateRoundTrip(route[i], items[i]);
    }
    FilterMapTotal(ParseCoordinates, items);
    assert FilterMap(ParseCoordinates, items) == route;
  }

  function Abs(x: real): real {
    if x < 0.0 then -x else x
  }

  /**
    `is_point_on_segment`: the three distances are taken in turn and the
    first error is the result; otherwise the point is on the segment iff
    its distances to the two ends add up to the segment's length within
    the tolerance.
  */
  function IsPointOnSegment(distance: Distance, point: Coordinate, start: Coordinate, end: Coordinate)
    : (r: Result<bool, string>)
    ensures r.Ok? <==> distance(point, start).Ok? && distance(point, end).Ok? && distance(start, end).Ok?
    ensures r.Ok? ==>
              (r.value <==> Abs(distance(point, start).value + distance(point, end).value -
                                distance(start, end).value) <= DISTANCE_TOLERANCE)
    ensures distance(point, start).Err? ==> r == Err(distance(point, start).error)
    ensures distance(point, start).Ok? && distance(point, end).Err? ==> r == Err(distance(point, end).error)
  {
    match distance(point, start)
    case Err(e) => Err(e)
    case Ok(toStart) =>
      match distance(point, end)
      case Err(e) => Err(e)
      case Ok(toEnd) =>
        match distance(start, end)
        case Err(e) => Err(e)
        case Ok(segment) => Ok(Abs(toStart + toEnd - segment) <= DISTANCE_TOLERANCE)
  }

  /** Given `d(x, x) = 0` and symmetry, both endpoints lie on their segment. */
  lemma EndpointsOnSegment(distance: Distance, start: Coordinate, end: Coordinate)
    requires distance(start, start) == Ok(0.0) && distance(end, end) == Ok(0.0)
    requires distance(start, end).Ok? && distance(end, start) == distance(start, end)
    ensures IsPointOnSegment(distance, start, start, end) == Ok(true)
    ensures IsPointOnSegment(distance, end, start, end) == Ok(true)
  {
  }

  /** The test of segment `i`, from `route[i]` to `route[i + 1]`. */
  function SegmentTest(distance: Distance, at: Coordinate, route: seq<Coordinate>, i: nat): Result<bool, string>
    requires i + 1 < |route|
  {
    IsPointOnSegment(distance, at, route[i], route[i + 1])
  }

  /**
    The segment scan from segment `i` on: `Ok(false)` (not deviated) at the
    first segment containing the point, an `Other` error at the first
    segment whose test fails, and `Ok(true)` when no segment is left.
  */
  function Scan(distance: Distance, at: Coordinate, route: seq<Coordinate>, i: nat): Result<bool, IoError>
    decreases |route| - i
  {
    if i + 1 >= |route| then Ok(true)
    else
      match SegmentTest(distance, at, route, i)
      case Ok(true) => Ok(false)
      case Ok(false) => Scan(distance, at, route, i + 1)
      case Err(e) => Err(IoError(Other, SEGMENT_ERROR + e))
  }

  /** What `check_deviation_from_route` returns for the user. */
  function Deviation(distance: Distance, user: User): Result<bool, IoError> {
    var location := if user.currentLocation.Some? then ParseCoordinates(user.currentLocation.value) else None;
    var route := if user.currentRouteNodeCoordinates.Some?
                 then ParseRouteCoordinates(user.currentRouteNodeCoordinates.value) else None;
    if location.None? then Err(IoError(NotFound, LOCATION_NOT_FOUND))
    else if route.None? then Err(IoError(NotFound, ROUTE_NOT_FOUND))
    else if |route.value| < 2 then Err(IoError(InvalidInput, TOO_FEW_POINTS))
    else Scan(distance, location.value, route.value, 0)
  }

  /**
    `check_deviation_from_route`: parse the location and the route, then
    test the segments in order, returning at the first one that contains
    the user or fails.
  */
  method CheckDeviationFromRoute(distance: Distance, user: User) returns (r: Result<bool, IoError>)
    ensures r == Deviation(distance, user)
  {
    var location := if user.currentLocation.Some? then ParseCoordinates(user.currentLocation.value) else None;
    if location.None? {
      return Err(IoError(NotFound, LOCATION_NOT_FOUND));
    }
    var route := if user.currentRouteNodeCoordinates.Some?
                 then ParseRouteCoordinates(user.currentRouteNodeCoordinates.value) else None;
    if route.None? {
      return Err(IoError(NotFound, ROUTE_NOT_FOUND));
    }
    var points := route.value;
    if |points| < 2 {
      return Err(IoError(InvalidInput, TOO_FEW_POINTS));
    }
    var at := location.value;
    for i := 0 to |points| - 1
      invariant Scan(distance, at, points, 0) == Scan(distance, at, points, i)
    {
      match IsPointOnSegment(distance, at, points[i], points[i + 1])
      case Ok(true) =>
        return Ok(false);
      case Ok(false) =>
      case Err(e) =>
        return Err(IoError(Other, SEGMENT_ERROR + e));
    }
    r := Ok(true);
  }

  /** Past segments that all leave the point out, the scan goes on as from the later segment. */
  lemma {:induction false} ScanSkips(distance: Distance, at: Coordinate, route: seq<Coordinate>, i: nat, k: nat)
    requires i <= k < |route|
    requires forall j :: i <= j < k ==> SegmentTest(distance, at, route, j) == Ok(false)
    ensures Scan(distance, at, route, i) == Scan(distance, at, route, k)
    decreases k - i
  {
    if i < k {
      assert SegmentTest(distance, at, route, i) == Ok(false);
      ScanSkips(distance, at, route, i + 1, k);
    }
  }

  /** The user has deviated iff the route has segments and none of them contains the location. */
  lemma {:induction false} DeviatedIff(distance: Distance, at: Coordinate, route: seq<Coordinate>, i: nat)
    ensures Scan(distance, at, route, i) == Ok(true) <==>
            forall j :: i <= j < |route| - 1 ==> SegmentTest(distance, at, route, j) == Ok(false)
    decreases |route| - i
  {
    if i + 1 < |route| {
      DeviatedIff(distance, at, route, i + 1);
    }
  }

  /** The user is on the route iff some segment contains them and every earlier segment's test says no. */
  lemma {:induction false} OnRouteIff(distance: Distance, at: Coordinate, route: seq<Coordinate>, i: nat)
    ensures Scan(distance, at, route, i) == Ok(false) <==>
            exists k :: i <= k < |route| - 1 && SegmentTest(distance, at, route, k) == Ok(true) &&
                        forall j :: i <= j < k ==> SegmentTest(distance, at, route, j) == Ok(false)
    decreases |route| - i
  {
    if i + 1 < |route| {
      OnRouteIff(distance, at, route, i + 1);
      if Scan(distance, at, route, i) == Ok(false) && SegmentTest(distance, at, route, i) == Ok(false) {
        var k :| i + 1 <= k < |route| - 1 && SegmentTest(distance, at, route, k) == Ok(true) &&
                 forall j :: i + 1 <= j < k ==> SegmentTest(distance, at, route, j) == Ok(false);
        assert forall j :: i <= j < k ==> SegmentTest(distance, at, route, j) == Ok(false);
      }
      if exists k :: i <= k < |route| - 1 && SegmentTest(distance, at, route, k) == Ok(true) &&
                     forall j :: i <= j < k ==> SegmentTest(distance, at, route, j) == Ok(false) {
        var k :| i <= k < |route| - 1 && SegmentTest(distance, at, route, k) == Ok(true) &&
                 forall j :: i <= j < k ==> SegmentTest(distance, at, route, j) == Ok(false);
        ScanSkips(distance, at, route, i, k);
      }
    }
  }

  /**
    A failing test aborts the check with an `Other` error carrying its
    message, even when a later segment would contain the location.
  */
  lemma FirstFailureAborts(distance: Distance, at: Coordinate, route: seq<Coordinate>, k: nat, e: string)
    requires k + 1 < |route| && SegmentTest(distance, at, route, k) == Err(e)
    requires forall j :: 0 <= j < k ==> SegmentTest(distance, at, route, j) == Ok(false)
    ensures Scan(distance, at, route, 0) == Err(IoError(Other, SEGMENT_ERROR + e))
  {
    ScanSkips(distance, at, route, 0, k);
  }

  /**
    The parsing stage: a missing or malformed location or route is a
    `NotFound` error, and fewer than two well-formed route points an
    `InvalidInput` error, counted after malformed entries are dropped.
  */
  lemma ParseErrors(distance: Distance, user: User)
    ensures (user.currentLocation.None? || ParseCoordinates(user.currentLocation.value).None?) ==>
              Deviation(distance, user) == Err(IoError(NotFound, LOCATION_NOT_FOUND))
    ensures user.currentLocation.Some? && ParseCoordinates(user.currentLocation.value).Some? ==>
              (user.currentRouteNodeCoordinates.None? || !user.currentRouteNodeCoordinates.value.Array?
               ==> Deviation(distance, user) == Err(IoError(NotFound, ROUTE_NOT_FOUND))) &&
              (user.currentRouteNodeCoordinates.Some? && user.currentRouteNodeCoordinates.value.Array? &&
               |FilterMap(ParseCoordinates, user.currentRouteNodeCoordinates.value.items)| < 2
               ==> Deviation(distance, user) == Err(IoError(InvalidInput, TOO_FEW_POINTS)))
  {
  }

  /**
    A user standing on the first point of a stored route is on the route,
    given `d(x, x) = 0` and symmetry for that point and the next.
  */
  lemma AtFirstPointNotDeviated(distance: Distance, user: User, route: seq<Coordinate>)
    requires |route| >= 2
    requires user.currentLocation == Some(EncodeCoordinate(route[0]))
    requires user.currentRouteNodeCoordinates == Some(EncodeRoute(route))
    requires distance(route[0], route[0]) == Ok(0.0) && distance(route[1], route[1]) == Ok(0.0)
    requires distance(route[0], route[1]).Ok? && distance(route[1], route[0]) == distance(route[0], route[1])
    ensures Deviation(distance, user) == Ok(false)
  {
    CoordinateRoundTrip(route[0], EncodeCoordinate(route[0]));
    RouteRoundTrip(route);
    EndpointsOnSegment(distance, route[0], route[1]);
  }
}
