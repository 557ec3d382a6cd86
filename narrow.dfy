/**
  The lambda handlers turn the `Vec<i64>` route into the response's
  `Vec<i32>` with `x as i32`, which keeps the low 32 bits: an OSM node id
  above `i32::MAX` comes out as a different number.
*/
module Narrow {
  import opened Wrappers
  import opened Decimal

  const TWO_32: int := 0x1_0000_0000

  predicate IsI32(x: int) { I32_MIN <= x <= I32_MAX }

  /** `x as i32` on an `i64`: the `i32` congruent to `x` modulo 2^32. */
  function AsI32(x: int): (y: int)
    ensures IsI32(y) && (x - y) % TWO_32 == 0
  {
    var low := x % TWO_32;
    if low > I32_MAX then low - TWO_32 else low
  }

  /** The cast changes nothing exactly on `i32` values. */
  lemma AsI32KeepsExactlyI32(x: int)
    ensures AsI32(x) == x <==> IsI32(x)
  {
    if IsI32(x) {
      var y := AsI32(x);
      assert -TWO_32 < x - y < TWO_32;
    }
  }

  /** The handlers' conversion, as written: every id cast. */
  function NarrowPath(p: seq<int>): (q: seq<int>)
    ensures |q| == |p| && forall i :: 0 <= i < |p| ==> q[i] == AsI32(p[i])
  {
    seq(|p|, i requires 0 <= i < |p| => AsI32(p[i]))
  }

  /**
    The recorded v4 route and the recorded lambda response: 5604208759,
    5604208758 and 8942477433 come back as 1309241463, 1309241462 and
    352542841, ids of no node on the route.
  */
  lemma RecordedResponse()
    ensures NarrowPath([103994771, 104105317, 5604208759, 104105315, 5604208758, 104105313, 104105311, 8942477433,
                        104105309, 104105306, 104105303]) ==
            [103994771, 104105317, 1309241463, 104105315, 1309241462, 104105313, 104105311, 352542841,
             104105309, 104105306, 104105303]
  {
    var p := [103994771, 104105317, 5604208759, 104105315, 5604208758, 104105313, 104105311, 8942477433,
              104105309, 104105306, 104105303];
    var q := [103994771, 104105317, 1309241463, 104105315, 1309241462, 104105313, 104105311, 352542841,
              104105309, 104105306, 104105303];
    var r := NarrowPath(p);
    assert r[0] == AsI32(103994771) == 103994771;
    assert r[1] == AsI32(104105317) == 104105317;
    assert r[2] == AsI32(5604208759) == 1309241463;
    assert r[3] == AsI32(104105315) == 104105315;
    assert r[4] == AsI32(5604208758) == 1309241462;
    assert r[5] == AsI32(104105313) == 104105313;
    assert r[6] == AsI32(104105311) == 104105311;
    assert r[7] == AsI32(8942477433) == 352542841;
    assert r[8] == AsI32(104105309) == 104105309;
    assert r[9] == AsI32(104105306) == 104105306;
    assert r[10] == AsI32(104105303) == 104105303;
    assert r == q;
  }

  lemma NarrowingChangesIds()
    ensures AsI32(8942477433) == 352542841 != 8942477433
    ensures AsI32(5604208759) == 1309241463 != 5604208759
  {
  }

  /**
    The evidently intended conversion: the ids of the route unchanged, or
    `None` (an error for the caller) when one does not fit in an `i32`,
    as `i32::try_from` does. It never returns an id that differs.
  */
  function TryNarrowPath(p: seq<int>): (r: Option<seq<int>>)
    ensures r.Some? <==> forall i :: 0 <= i < |p| ==> IsI32(p[i])
    ensures r.Some? ==> r.value == p
  {
    if p == [] then Some([])
    else if !IsI32(p[0]) then None
    else
      match TryNarrowPath(p[1..])
      case None => None
      case Some(rest) => Some([p[0]] + rest)
  }

  /** Where the checked conversion succeeds, it agrees with the cast. */
  lemma {:induction false} TryNarrowAgrees(p: seq<int>)
    requires TryNarrowPath(p).Some?
    ensures TryNarrowPath(p).value == NarrowPath(p)
  {
    forall i | 0 <= i < |p|
      ensures AsI32(p[i]) == p[i]
    {
      AsI32KeepsExactlyI32(p[i]);
    }
  }
}
