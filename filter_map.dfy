/**
  `iter().filter_map(f).collect()`: keep, in order, the values that `f`
  yields and drop the elements for which it yields `None`. v5's
  route-coordinate parser calls it; the id lookups of the store layers
  build the same list with a push loop (`Resolve.QueryNodesById`).
*/
module FilterMaps {
  import opened Wrappers

  function FilterMap<A, B>(f: A -> Option<B>, xs: seq<A>): (ys: seq<B>)
    ensures |ys| <= |xs|
  {
    if xs == [] then []
    else (if f(xs[0]).Some? then [f(xs[0]).value] else []) + FilterMap(f, xs[1..])
  }

  /** Filtering a concatenation filters each part in turn: the order of the input is kept. */
  lemma {:induction false} FilterMapAppend<A, B>(f: A -> Option<B>, a: seq<A>, b: seq<A>)
    ensures FilterMap(f, a + b) == FilterMap(f, a) + FilterMap(f, b)
  {
    if a == [] {
      assert a + b == b;
    } else {
      var head := if f(a[0]).Some? then [f(a[0]).value] else [];
      assert (a + b)[0] == a[0] && (a + b)[1..] == a[1..] + b;
      FilterMapAppend(f, a[1..], b);
      calc {
        FilterMap(f, a + b);
        head + FilterMap(f, a[1..] + b);
        head + (FilterMap(f, a[1..]) + FilterMap(f, b));
        (head + FilterMap(f, a[1..])) + FilterMap(f, b);
      }
    }
  }

  /** A value is in the output exactly when `f` yields it for some element: nothing is invented. */
  lemma {:induction false} FilterMapMembership<A, B>(f: A -> Option<B>, xs: seq<A>, y: B)
    ensures y in FilterMap(f, xs) <==> exists i :: 0 <= i < |xs| && f(xs[i]) == Some(y)
  {
    if xs != [] {
      FilterMapMembership(f, xs[1..], y);
      if exists i :: 0 <= i < |xs| && f(xs[i]) == Some(y) {
        var i :| 0 <= i < |xs| && f(xs[i]) == Some(y);
        if i > 0 {
          assert xs[1..][i - 1] == xs[i];
        }
      }
      if exists i :: 0 <= i < |xs[1..]| && f(xs[1..][i]) == Some(y) {
        var i :| 0 <= i < |xs[1..]| && f(xs[1..][i]) == Some(y);
        assert xs[i + 1] == xs[1..][i];
      }
    }
  }

  /** When `f` yields a value for every element, nothing is dropped: one value per element, in order. */
  lemma {:induction false} FilterMapTotal<A, B>(f: A -> Option<B>, xs: seq<A>)
    requires forall i :: 0 <= i < |xs| ==> f(xs[i]).Some?
    ensures |FilterMap(f, xs)| == |xs|
    ensures forall i :: 0 <= i < |xs| ==> FilterMap(f, xs)[i] == f(xs[i]).value
  {
    if xs != [] {
      assert f(xs[0]).Some?;
      FilterMapTotal(f, xs[1..]);
    }
  }

  /** An element for which `f` yields `None` leaves the output as if it were not there. */
  lemma FilterMapDrops<A, B>(f: A -> Option<B>, a: seq<A>, x: A, b: seq<A>)
    requires f(x).None?
    ensures FilterMap(f, a + [x] + b) == FilterMap(f, a + b)
  {
    FilterMapAppend(f, a + [x], b);
    FilterMapAppend(f, a, [x]);
    FilterMapAppend(f, a, b);
    assert FilterMap(f, [x]) == [] by {
      assert [x][1..] == [];
    }
  }
}
