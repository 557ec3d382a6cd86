/**
  `reconstruct_path`: walk the predecessor links back from `end` until
  `start`, push `start`, reverse. Returns the empty path when a link is
  missing.
*/
module Reconstruct {
  import opened Wrappers

  /**
    A ghost rank attached to nodes: the search orders nodes by (distance,
    time of last improvement), and every predecessor link goes strictly down.
  */
  datatype Rank = Rank(major: nat, minor: nat)

  predicate Below(a: Rank, b: Rank) {
    a.major < b.major || (a.major == b.major && a.minor < b.minor)
  }

  /** Every link `v -> preds[v]` descends in rank: the links are acyclic. */
  ghost predicate Ranked<Id(!new)>(preds: map<Id, Id>, rank: map<Id, Rank>) {
    forall v {:trigger preds[v]} :: v in preds ==> v in rank && preds[v] in rank && Below(rank[preds[v]], rank[v])
  }

  function Reverse<T>(s: seq<T>): (r: seq<T>)
    ensures |r| == |s| && forall i :: 0 <= i < |s| ==> r[i] == s[|s| - 1 - i]
  {
    if s == [] then [] else Reverse(s[1..]) + [s[0]]
  }

  /**
    The path the walk produces: `Some` of `start`, …, `end`, or `None` when
    the walk meets a node without a predecessor before reaching `start`.
  */
  ghost function Chain<Id(!new)>(preds: map<Id, Id>, start: Id, cur: Id, rank: map<Id, Rank>): Option<seq<Id>>
    requires Ranked(preds, rank)
    decreases if cur in rank then rank[cur].major else 0, if cur in rank then rank[cur].minor else 0
  {
    if cur == start then Some([start])
    else if cur !in preds then None
    else
      match Chain(preds, start, preds[cur], rank)
      case None => None
      case Some(p) => Some(p + [cur])
  }

  /**
    A link path from `start` to `end`: it starts at `start`, ends at `end`,
    every element after the first has its predecessor just before it, and
    `start` occurs only at the front (the walk stops there).
  */
  ghost predicate LinkPath<Id>(preds: map<Id, Id>, start: Id, end: Id, p: seq<Id>) {
    |p| > 0 && p[0] == start && p[|p| - 1] == end &&
    (forall i :: 0 < i < |p| ==> p[i] != start && p[i] in preds && preds[p[i]] == p[i - 1])
  }

  /** The reconstructed path: the chain, or empty when the chain is broken. */
  ghost function Path<Id(!new)>(preds: map<Id, Id>, start: Id, end: Id, rank: map<Id, Rank>): seq<Id>
    requires Ranked(preds, rank)
  {
    match Chain(preds, start, end, rank)
    case None => []
    case Some(p) => p
  }

  /**
    `reconstruct_path`. On a cyclic predecessor map that never reaches `start`
    the source loops forever; the model asks for a rank witnessing that the
    links are acyclic.
  */
  method ReconstructPath<Id(==,!new)>(preds: map<Id, Id>, start: Id, end: Id, ghost rank: map<Id, Rank>) returns (path: seq<Id>)
    requires Ranked(preds, rank)
    ensures Chain(preds, start, end, rank).Some? ==> path == Chain(preds, start, end, rank).value
    ensures Chain(preds, start, end, rank).None? ==> path == []
  {
    path := [];
    var current := end;
    ghost var whole := Chain(preds, start, end, rank);
    if whole.Some? {
      assert whole.value + Reverse(path) == whole.value;
    }
    while current != start
      invariant Chain(preds, start, end, rank) ==
        match Chain(preds, start, current, rank)
        case None => None
        case Some(q) => Some(q + Reverse(path))
      decreases if current in rank then rank[current].major else 0,
                if current in rank then rank[current].minor else 0
    {
      ghost var before := path;
      path := path + [current];
      if current in preds {
        RevPush(before, current);
        ghost var q := Chain(preds, start, preds[current], rank);
        if q.Some? {
          assert q.value + Reverse(path) == q.value + [current] + Reverse(before);
        }
        current := preds[current];
      } else {
        return [];
      }
    }
    RevPush(path, start);
    path := path + [start];
    path := Reverse(path);
  }

  lemma RevPush<T>(s: seq<T>, x: T)
    ensures Reverse(s + [x]) == [x] + Reverse(s)
  {
  }

  // ---------------------------------------------------------------------------
  // Properties

  /** From `start` to `start` the path is `[start]`. */
  lemma PathToStart<Id(!new)>(preds: map<Id, Id>, start: Id, rank: map<Id, Rank>)
    requires Ranked(preds, rank)
    ensures Path(preds, start, start, rank) == [start]
  {
  }

  /** A chain, when there is one, is a link path from `start` to `cur`. */
  lemma {:induction false} ChainIsLinkPath<Id(!new)>(preds: map<Id, Id>, start: Id, cur: Id, rank: map<Id, Rank>)
    requires Ranked(preds, rank)
    requires Chain(preds, start, cur, rank).Some?
    ensures LinkPath(preds, start, cur, Chain(preds, start, cur, rank).value)
    decreases if cur in rank then rank[cur].major else 0, if cur in rank then rank[cur].minor else 0
  {
    if cur != start {
      ChainIsLinkPath(preds, start, preds[cur], rank);
    }
  }

  /** Every link path is the chain: there is exactly one, and the walk finds it. */
  lemma {:induction false} LinkPathIsChain<Id(!new)>(preds: map<Id, Id>, start: Id, end: Id, p: seq<Id>, rank: map<Id, Rank>)
    requires Ranked(preds, rank)
    requires LinkPath(preds, start, end, p)
    ensures Chain(preds, start, end, rank) == Some(p)
    decreases |p|
  {
    if |p| > 1 {
      var init := p[..|p| - 1];
      assert LinkPath(preds, start, preds[end], init);
      LinkPathIsChain(preds, start, preds[end], init, rank);
      assert init + [end] == p;
    } else {
      assert p == [start];
    }
  }

  /**
    The result is non-empty iff a link path from `start` to `end` exists, and
    then it is that path: it starts at `start`, ends at `end` and follows the
    predecessor links.
  */
  lemma PathCharacterised<Id(!new)>(preds: map<Id, Id>, start: Id, end: Id, rank: map<Id, Rank>, p: seq<Id>)
    requires Ranked(preds, rank)
    ensures Path(preds, start, end, rank) == p && p != [] <==> LinkPath(preds, start, end, p)
  {
    if LinkPath(preds, start, end, p) {
      LinkPathIsChain(preds, start, end, p, rank);
    }
    if Path(preds, start, end, rank) == p && p != [] {
      ChainIsLinkPath(preds, start, end, rank);
    }
  }

  /** A walk that meets a node with no predecessor, before `start`, gives the empty path, not a truncated one. */
  lemma {:induction false} BrokenChainIsEmpty<Id(!new)>(preds: map<Id, Id>, start: Id, end: Id, rank: map<Id, Rank>, p: seq<Id>)
    requires Ranked(preds, rank)
    requires |p| > 0 && p[|p| - 1] == end && p[0] != start && p[0] !in preds
    requires forall i :: 0 < i < |p| ==> p[i] != start && p[i] in preds && preds[p[i]] == p[i - 1]
    ensures Path(preds, start, end, rank) == []
    decreases |p|
  {
    if |p| > 1 {
      BrokenChainIsEmpty(preds, start, preds[end], rank, p[..|p| - 1]);
    }
  }

  /**
    get-shortest-path's `reconstruct_path` maps each id to its node's
    `[lon, lat]`; a missing node makes the `unwrap` panic.
  */
  function ToCoordinates<Id, C>(path: seq<Id>, nodes: map<Id, C>): (r: Run<seq<C>>)
    ensures r.Done? <==> forall i :: 0 <= i < |path| ==> path[i] in nodes
    ensures r.Done? ==> |r.value| == |path| && forall i :: 0 <= i < |path| ==> r.value[i] == nodes[path[i]]
  {
    if path == [] then Done([])
    else if path[0] !in nodes then Panicked
    else
      match ToCoordinates(path[1..], nodes)
      case Panicked => Panicked
      case Done(rest) => Done([nodes[path[0]]] + rest)
  }
}
