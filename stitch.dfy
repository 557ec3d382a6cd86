/**
  `get_shortest_path_multiple(points)`: one shortest-path search per pair of
  consecutive waypoints, stitched into one route. The first segment is
  taken whole; a later segment is taken without its first node (the
  junction, already the last node of the route so far), and only when it
  has more than one node. The per-segment search is a parameter.
*/
module Stitch {
  import opened Wrappers

  const TOO_FEW_POINTS: string := "At least two points are required to calculate a path."

  /** What segment number `i` adds to the route. */
  function Contribution<T>(i: nat, seg: seq<T>): seq<T> {
    if i == 0 then seg else if |seg| > 1 then seg[1..] else []
  }

  /** The stitched route: every segment's contribution, in order. */
  function Joined<T>(segs: seq<seq<T>>): seq<T> {
    if segs == [] then [] else Joined(segs[..|segs| - 1]) + Contribution(|segs| - 1, segs[|segs| - 1])
  }

  /** Segment `i` (from `points[i]` to `points[i + 1]`) returns a path. */
  predicate SegmentOk<P, T>(points: seq<P>, segment: (P, P) -> Run<Result<seq<T>, IoError>>, i: int) {
    0 <= i < |points| - 1 && segment(points[i], points[i + 1]).Done? && segment(points[i], points[i + 1]).value.Ok?
  }

  /** The paths of the first `k` segments, or the first failure among them (`?` returns it at once). */
  function Segments<P, T>(points: seq<P>, segment: (P, P) -> Run<Result<seq<T>, IoError>>, k: nat)
    : Run<Result<seq<seq<T>>, IoError>>
    requires k < |points|
  {
    if k == 0 then Done(Ok([]))
    else
      match Segments(points, segment, k - 1)
      case Panicked => Panicked
      case Done(Err(e)) => Done(Err(e))
      case Done(Ok(segs)) =>
        match segment(points[k - 1], points[k])
        case Panicked => Panicked
        case Done(Err(e)) => Done(Err(e))
        case Done(Ok(s)) => Done(Ok(segs + [s]))
  }

  /** The specification of `get_shortest_path_multiple`. */
  function Stitched<P, T>(points: seq<P>, segment: (P, P) -> Run<Result<seq<T>, IoError>>): Run<Result<seq<T>, IoError>> {
    if |points| < 2 then Done(Err(IoError(InvalidInput, TOO_FEW_POINTS)))
    else
      match Segments(points, segment, |points| - 1)
      case Panicked => Panicked
      case Done(Err(e)) => Done(Err(e))
      case Done(Ok(segs)) => Done(Ok(Joined(segs)))
  }

  /** A segment that gives a path extends the paths of the segments before it. */
  lemma SegmentsStep<P, T>(points: seq<P>, segment: (P, P) -> Run<Result<seq<T>, IoError>>, k: nat,
                           segs: seq<seq<T>>, path: seq<T>)
    requires k + 1 < |points| && Segments(points, segment, k) == Done(Ok(segs))
    requires segment(points[k], points[k + 1]) == Done(Ok(path))
    ensures Segments(points, segment, k + 1) == Done(Ok(segs + [path]))
  {
  }

  /** Once a segment has failed, the later segments are not run: the failure is the outcome. */
  lemma {:induction false} FailureIsFinal<P, T>(points: seq<P>, segment: (P, P) -> Run<Result<seq<T>, IoError>>, k: nat, m: nat)
    requires k <= m < |points|
    requires !(Segments(points, segment, k).Done? && Segments(points, segment, k).value.Ok?)
    ensures Segments(points, segment, m) == Segments(points, segment, k)
  {
    if m > k {
      FailureIsFinal(points, segment, k, m - 1);
    }
  }

  predicate IsOk<T>(x: Run<Result<T, IoError>>) {
    x.Done? && x.value.Ok?
  }

  /** The first `k` segments give paths iff each of them does. */
  lemma {:induction false} SegmentsOkIff<P, T>(points: seq<P>, segment: (P, P) -> Run<Result<seq<T>, IoError>>, k: nat)
    requires k < |points|
    ensures IsOk(Segments(points, segment, k)) <==> forall i :: 0 <= i < k ==> SegmentOk(points, segment, i)
  {
    if k > 0 {
      SegmentsOkIff(points, segment, k - 1);
      if !IsOk(Segments(points, segment, k)) && forall i :: 0 <= i < k ==> SegmentOk(points, segment, i) {
        assert SegmentOk(points, segment, k - 1);
      }
    }
  }

  /** The paths of the first `k` segments, when each of them gives one. */
  function SegmentPaths<P, T>(points: seq<P>, segment: (P, P) -> Run<Result<seq<T>, IoError>>, k: nat): (segs: seq<seq<T>>)
    requires k < |points| && forall i :: 0 <= i < k ==> SegmentOk(points, segment, i)
    ensures |segs| == k
    ensures forall i :: 0 <= i < k ==> SegmentOk(points, segment, i) && segs[i] == segment(points[i], points[i + 1]).value.value
  {
    if k == 0 then []
    else
      assert SegmentOk(points, segment, k - 1);
      SegmentPaths(points, segment, k - 1) + [segment(points[k - 1], points[k]).value.value]
  }

  /**
    When every segment gives a path, the call returns the join of exactly
    the `|points| - 1` segment paths, in order.
  */
  lemma {:induction false} AllSegmentsOk<P, T>(points: seq<P>, segment: (P, P) -> Run<Result<seq<T>, IoError>>, k: nat)
    requires k < |points| && forall i :: 0 <= i < k ==> SegmentOk(points, segment, i)
    ensures Segments(points, segment, k) == Done(Ok(SegmentPaths(points, segment, k)))
    ensures k == |points| - 1 >= 1 ==> Stitched(points, segment) == Done(Ok(Joined(SegmentPaths(points, segment, k))))
  {
    if k > 0 {
      AllSegmentsOk(points, segment, k - 1);
      assert SegmentOk(points, segment, k - 1);
    }
  }

  /** One segment's failure as the outcome of the whole call. */
  function Failure<T>(o: Run<Result<seq<T>, IoError>>): Run<Result<seq<T>, IoError>> {
    if o.Panicked? then Panicked else if o.value.Err? then Done(Err(o.value.error)) else Done(Ok([]))
  }

  /**
    The first failing segment decides: if every segment before `i` gives a
    path and segment `i` fails, the call ends with that failure, whatever
    the later segments would do.
  */
  lemma FirstFailureWins<P, T>(points: seq<P>, segment: (P, P) -> Run<Result<seq<T>, IoError>>, i: nat)
    requires i < |points| - 1
    requires forall j :: 0 <= j < i ==> SegmentOk(points, segment, j)
    requires !SegmentOk(points, segment, i)
    ensures Stitched(points, segment) == Failure(segment(points[i], points[i + 1]))
  {
    AllSegmentsOk(points, segment, i);
    FailureIsFinal(points, segment, i + 1, |points| - 1);
  }

  /**
    `get_shortest_path_multiple`: fewer than two points is an `InvalidInput`
    error; otherwise the segments run in order, the first failing one ends
    the call with its failure, and the routes are joined.
  */
  method GetShortestPathMultiple<P, T>(points: seq<P>, segment: (P, P) -> Run<Result<seq<T>, IoError>>)
    returns (r: Run<Result<seq<T>, IoError>>)
    ensures r == Stitched(points, segment)
  {
    if |points| < 2 {
      return Done(Err(IoError(InvalidInput, TOO_FEW_POINTS)));
    }
    var fullPath: seq<T> := [];
    ghost var segs: seq<seq<T>> := [];
    for i := 0 to |points| - 1
      invariant Segments(points, segment, i) == Done(Ok(segs))
      invariant |segs| == i && fullPath == Joined(segs)
    {
      var outcome := segment(points[i], points[i + 1]);
      if outcome.Panicked? || outcome.value.Err? {
        FailureIsFinal(points, segment, i + 1, |points| - 1);
        r := if outcome.Panicked? then Panicked else Done(Err(outcome.value.error));
        return;
      }
      var segmentPath := outcome.value.value;
      SegmentsStep(points, segment, i, segs, segmentPath);
      if i == 0 {
        fullPath := fullPath + segmentPath;
      } else if |segmentPath| > 1 {
        fullPath := fullPath + segmentPath[1..];
      }
      segs := segs + [segmentPath];
      assert segs[..|segs| - 1] == segs[..i];
    }
    r := Done(Ok(fullPath));
  }

  // ---------------------------------------------------------------------------
  // Properties of the stitched route

  function TotalLength<T>(segs: seq<seq<T>>): nat {
    if segs == [] then 0 else TotalLength(segs[..|segs| - 1]) + |segs[|segs| - 1]|
  }

  /** The number of segments after the first that are not empty. */
  function NonEmptyLater<T>(segs: seq<seq<T>>): nat {
    if |segs| <= 1 then 0 else NonEmptyLater(segs[..|segs| - 1]) + (if segs[|segs| - 1] != [] then 1 else 0)
  }

  /**
    Length of the route: every node of every segment, less one junction node
    for each later segment that is not empty (an empty one adds nothing).
  */
  lemma {:induction false} JoinedLength<T>(segs: seq<seq<T>>)
    ensures |Joined(segs)| + NonEmptyLater(segs) == TotalLength(segs)
  {
    if segs != [] {
      JoinedLength(segs[..|segs| - 1]);
    }
  }

  /** Consecutive elements of `p` are related by `step` (an edge of the graph, say). */
  ghost predicate Chained<T>(step: (T, T) -> bool, p: seq<T>) {
    forall i :: 0 < i < |p| ==> step(p[i - 1], p[i])
  }

  /** Each segment is a non-empty walk that starts where the previous one ended. */
  ghost predicate Linked<T>(step: (T, T) -> bool, segs: seq<seq<T>>) {
    (forall i :: 0 <= i < |segs| ==> segs[i] != [] && Chained(step, segs[i])) &&
    (forall i :: 0 < i < |segs| ==> segs[i][0] == segs[i - 1][|segs[i - 1]| - 1])
  }

  /**
    Junction deduplication: stitching linked walks gives one walk, from the
    first segment's start to the last segment's end, that meets each
    junction once.
  */
  lemma {:induction false} JoinedIsWalk<T>(step: (T, T) -> bool, segs: seq<seq<T>>)
    requires |segs| > 0 && Linked(step, segs)
    ensures var p := Joined(segs);
            |p| > 0 && p[0] == segs[0][0] && p[|p| - 1] == segs[|segs| - 1][|segs[|segs| - 1]| - 1] &&
            Chained(step, p)
  {
    if |segs| > 1 {
      var init := segs[..|segs| - 1];
      assert Linked(step, init);
      JoinedIsWalk(step, init);
      var p0 := Joined(init);
      var s := segs[|segs| - 1];
      var p := Joined(segs);
      assert p == p0 + Contribution(|segs| - 1, s);
      assert s[0] == p0[|p0| - 1];
      forall i | 0 < i < |p|
        ensures step(p[i - 1], p[i])
      {
        if i >= |p0| {
          assert p[i] == s[i - |p0| + 1];
          assert p[i - 1] == s[i - |p0|];
        }
      }
    }
  }

  /**
    Segment `i` gives a non-empty walk from the node of its first waypoint
    to the node of its second.
  */
  ghost predicate SegmentWalk<P, T>(points: seq<P>, segment: (P, P) -> Run<Result<seq<T>, IoError>>, at: P -> T,
                                    step: (T, T) -> bool, i: int) {
    0 <= i < |points| - 1 && SegmentOk(points, segment, i) &&
    var s := segment(points[i], points[i + 1]).value.value;
    s != [] && s[0] == at(points[i]) && s[|s| - 1] == at(points[i + 1]) && Chained(step, s)
  }

  /** The segment paths of such segments are linked walks. */
  lemma SegmentsLinked<P, T>(points: seq<P>, segment: (P, P) -> Run<Result<seq<T>, IoError>>, at: P -> T,
                             step: (T, T) -> bool)
    requires |points| >= 2
    requires forall i :: 0 <= i < |points| - 1 ==> SegmentWalk(points, segment, at, step, i)
    ensures forall i :: 0 <= i < |points| - 1 ==> SegmentOk(points, segment, i)
    ensures var segs := SegmentPaths(points, segment, |points| - 1);
            Linked(step, segs) && segs[0][0] == at(points[0]) &&
            segs[|segs| - 1][|segs[|segs| - 1]| - 1] == at(points[|points| - 1])
  {
    forall i | 0 <= i < |points| - 1
      ensures SegmentOk(points, segment, i)
    {
      assert SegmentWalk(points, segment, at, step, i);
    }
    var segs := SegmentPaths(points, segment, |points| - 1);
    forall i | 0 <= i < |segs|
      ensures segs[i] != [] && segs[i][0] == at(points[i]) && segs[i][|segs[i]| - 1] == at(points[i + 1])
      ensures Chained(step, segs[i])
    {
      assert SegmentWalk(points, segment, at, step, i);
    }
  }

  /**
    End to end: when every segment gives a non-empty walk from the node of
    its first waypoint to the node of its second, the call returns one walk
    from the node of the first waypoint to the node of the last.
  */
  lemma StitchedIsWalk<P, T>(points: seq<P>, segment: (P, P) -> Run<Result<seq<T>, IoError>>, at: P -> T,
                             step: (T, T) -> bool)
    requires |points| >= 2
    requires forall i :: 0 <= i < |points| - 1 ==> SegmentWalk(points, segment, at, step, i)
    ensures Stitched(points, segment).Done? && Stitched(points, segment).value.Ok?
    ensures var p := Stitched(points, segment).value.value;
            |p| > 0 && p[0] == at(points[0]) && p[|p| - 1] == at(points[|points| - 1]) && Chained(step, p)
  {
    SegmentsLinked(points, segment, at, step);
    AllSegmentsOk(points, segment, |points| - 1);
    JoinedIsWalk(step, SegmentPaths(points, segment, |points| - 1));
  }

  /** The route of the recorded v4 run: the junction 8942477433 appears once. */
  lemma RecordedRun()
    ensures Joined([[103994771, 104105317, 5604208759, 104105315, 5604208758, 104105313, 104105311, 8942477433],
                    [8942477433, 104105309, 104105306, 104105303]]) ==
            [103994771, 104105317, 5604208759, 104105315, 5604208758, 104105313, 104105311, 8942477433,
             104105309, 104105306, 104105303]
  {
    var a := [103994771, 104105317, 5604208759, 104105315, 5604208758, 104105313, 104105311, 8942477433];
    var b := [8942477433, 104105309, 104105306, 104105303];
    assert [a, b][..1] == [a];
    var none: seq<seq<int>> := [];
    assert [a][..0] == none;
  }

  // ---------------------------------------------------------------------------
  // v2: the lenient variant

  /** v2's search cannot fail with an error; it can only panic. */
  function Lift<P, T>(segment: (P, P) -> Run<seq<T>>): (P, P) -> Run<Result<seq<T>, IoError>> {
    (p, q) => match segment(p, q) case Panicked => Panicked case Done(s) => Done(Ok(s))
  }

  /** Specification of v2's `get_shortest_path_multiple`: too few points give the empty route. */
  function StitchedLenient<P, T>(points: seq<P>, segment: (P, P) -> Run<seq<T>>): Run<seq<T>> {
    if |points| < 2 then Done([])
    else
      match Stitched(points, Lift(segment))
      case Done(Ok(p)) => Done(p)
      case _ => Panicked
  }

  /**
    With a search that never panics, the lenient variant always returns
    the join of exactly the `|points| - 1` segment paths.
  */
  lemma LenientJoinsAll<P, T>(points: seq<P>, segment: (P, P) -> Run<seq<T>>)
    requires |points| >= 2 && forall i :: 0 <= i < |points| - 1 ==> segment(points[i], points[i + 1]).Done?
    ensures forall i :: 0 <= i < |points| - 1 ==> SegmentOk(points, Lift(segment), i)
    ensures StitchedLenient(points, segment) == Done(Joined(SegmentPaths(points, Lift(segment), |points| - 1)))
    ensures forall i :: 0 <= i < |points| - 1 ==>
              SegmentPaths(points, Lift(segment), |points| - 1)[i] == segment(points[i], points[i + 1]).value
  {
    var lifted := Lift(segment);
    forall i | 0 <= i < |points| - 1
      ensures SegmentOk(points, lifted, i) && lifted(points[i], points[i + 1]).value.value == segment(points[i], points[i + 1]).value
    {
      assert segment(points[i], points[i + 1]).Done?;
    }
    AllSegmentsOk(points, lifted, |points| - 1);
  }

  /**
    v2's `get_shortest_path_multiple`: the same loop, with an empty route
    for fewer than two points. The abstract `segment` stands for the whole
    loop step: the two `query_node_by_coordinates(..).unwrap()` resolutions
    of the segment's points and the search; a panic of any of them is the
    segment's `Panicked`.
  */
  method GetShortestPathMultipleLenient<P, T>(points: seq<P>, segment: (P, P) -> Run<seq<T>>) returns (r: Run<seq<T>>)
    ensures r == StitchedLenient(points, segment)
  {
    if |points| < 2 {
      return Done([]);
    }
    ghost var lifted := Lift(segment);
    var path: seq<T> := [];
    ghost var segs: seq<seq<T>> := [];
    for i := 0 to |points| - 1
      invariant Segments(points, lifted, i) == Done(Ok(segs))
      invariant |segs| == i && path == Joined(segs)
    {
      var outcome := segment(points[i], points[i + 1]);
      if outcome.Panicked? {
        assert lifted(points[i], points[i + 1]) == Panicked;
        FailureIsFinal(points, lifted, i + 1, |points| - 1);
        return Panicked;
      }
      var segmentPath := outcome.value;
      assert lifted(points[i], points[i + 1]) == Done(Ok(segmentPath));
      SegmentsStep(points, lifted, i, segs, segmentPath);
      if i == 0 {
        path := path + segmentPath;
      } else if |segmentPath| > 1 {
        path := path + segmentPath[1..];
      }
      segs := segs + [segmentPath];
      assert segs[..|segs| - 1] == segs[..i];
    }
    r := Done(path);
  }
}
