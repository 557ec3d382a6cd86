/**
  The search loop shared by every Dijkstra prototype: lazy deletion over a
  binary heap, strict-improvement relaxation, stop at the first pop of the
  destination, then `reconstruct_path`.
*/
module Search {
  import opened Wrappers
  import opened Reconstruct

  /** One neighbour of an expanded node: its id, the edge weight, the record cached for it. */
  datatype Hop<Id, P> = Hop(to: Id, weight: nat, rec: P)

  /**
    What expanding a node yields: its neighbours; nothing (v0 logs an
    adjacency error and moves on); or a panic (`unwrap` on a failed fetch).
  */
  datatype Expansion<Id, P> = Expand(hops: seq<Hop<Id, P>>) | Skip | Abort

  function Hops<Id, P>(x: Expansion<Id, P>): seq<Hop<Id, P>> {
    if x.Expand? then x.hops else []
  }

  /** `State { cost, node }` in the heap. */
  datatype Entry<Id> = Entry(cost: nat, node: Id)

  /** `*distances.get(&k).unwrap_or(&unseen)`. */
  function GetOr<Id>(m: map<Id, nat>, k: Id, unseen: nat): (r: nat)
    ensures k in m ==> r == m[k]
    ensures k !in m ==> r == unseen
  {
    if k in m then m[k] else unseen
  }

  /** Every neighbour of every node lies in `universe`. */
  ghost predicate Closed<Id(!new), P(!new)>(expand: Id -> Expansion<Id, P>, universe: set<Id>) {
    forall v, h :: h in Hops(expand(v)) ==> h.to in universe
  }

  /**
    `v`'s predecessor link is justified by the hop `link[v]`: a hop of the
    predecessor that reaches `v` with the cached record, and `v`'s distance
    covers it.
  */
  ghost predicate Justified<Id(!new), P(!new)>(expand: Id -> Expansion<Id, P>, dist: map<Id, nat>, preds: map<Id, Id>,
                                               nodes: map<Id, P>, link: map<Id, Hop<Id, P>>, v: Id) {
    v in preds && v in dist && v in nodes && preds[v] in dist && v in link &&
    link[v] in Hops(expand(preds[v])) && link[v].to == v && link[v].rec == nodes[v] &&
    dist[preds[v]] + link[v].weight <= dist[v]
  }

  /**
    What the maps look like between two pops: the source at distance 0 with
    no predecessor, every other reached node with a justified predecessor,
    every recorded distance below the `unseen` default, and the node cache
    keyed exactly like the distances.
  */
  ghost predicate Consistent<Id(!new), P(!new)>(expand: Id -> Expansion<Id, P>, unseen: nat, start: Id,
                                                dist: map<Id, nat>, preds: map<Id, Id>, nodes: map<Id, P>,
                                                link: map<Id, Hop<Id, P>>) {
    Shaped(unseen, start, dist, preds, nodes) && AllJustified(expand, dist, preds, nodes, link)
  }

  /** The maps' keys and bounds, links aside. */
  ghost predicate Shaped<Id(!new), P(!new)>(unseen: nat, start: Id, dist: map<Id, nat>, preds: map<Id, Id>,
                                            nodes: map<Id, P>) {
    start in dist && dist[start] == 0 && start !in preds &&
    (forall v :: v in preds ==> v in dist) &&
    (forall v {:trigger preds[v]} :: v in preds ==> preds[v] in dist) &&
    (forall v {:trigger dist[v]} :: v in dist ==> v == start || v in preds) &&
    (forall v :: v in dist ==> dist[v] < unseen) &&
    nodes.Keys == dist.Keys
  }

  /** Every predecessor link is justified. */
  ghost predicate AllJustified<Id(!new), P(!new)>(expand: Id -> Expansion<Id, P>, dist: map<Id, nat>, preds: map<Id, Id>,
                                                  nodes: map<Id, P>, link: map<Id, Hop<Id, P>>) {
    forall v {:trigger preds[v]} :: v in preds ==> Justified(expand, dist, preds, nodes, link, v)
  }

  /** The ghost rank of a reached node is (distance, time of its last improvement). */
  ghost predicate RankInv<Id(!new)>(dist: map<Id, nat>, preds: map<Id, Id>, rank: map<Id, Rank>, clock: nat) {
    Ranked(preds, rank) && rank.Keys == dist.Keys &&
    forall v :: v in rank ==> rank[v].major == dist[v] && rank[v].minor < clock
  }

  /** Every heap entry is for a reached node and costs at least its recorded distance. */
  ghost predicate HeapInv<Id(!new)>(dist: map<Id, nat>, heap: multiset<Entry<Id>>) {
    forall e :: e in heap ==> e.node in dist && dist[e.node] <= e.cost
  }

  /** Every expanded entry holds its node's recorded distance. */
  ghost predicate Final<Id(!new)>(dist: map<Id, nat>, settled: seq<Entry<Id>>) {
    forall e :: e in settled ==> e.node in dist && dist[e.node] == e.cost
  }

  /** Min-first popping: every expanded entry holds its node's distance, at most `floor`. */
  ghost predicate SettledInv<Id(!new)>(dist: map<Id, nat>, settled: seq<Entry<Id>>, floor: nat) {
    Final(dist, settled) && forall e :: e in settled ==> e.cost <= floor
  }

  /** A popped entry is expanded when it is not the destination and not stale. */
  predicate Expanded<Id>(e: Entry<Id>, end: Id, dist: map<Id, nat>, unseen: nat) {
    e.node != end && e.cost <= GetOr(dist, e.node, unseen)
  }

  /** No recorded distance went up or disappeared. */
  ghost predicate NoIncrease<Id(!new)>(dist0: map<Id, nat>, dist: map<Id, nat>) {
    forall v :: v in dist0 ==> v in dist && dist[v] <= dist0[v]
  }

  /** No expanded node's expansion panicked. */
  ghost predicate NoAbort<Id(!new), P(!new)>(expand: Id -> Expansion<Id, P>, settled: seq<Entry<Id>>) {
    forall e :: e in settled ==> !expand(e.node).Abort?
  }

  /** The last expanded node is one whose expansion panicked. */
  ghost predicate EndsInAbort<Id(!new), P(!new)>(expand: Id -> Expansion<Id, P>, settled: seq<Entry<Id>>) {
    |settled| > 0 && expand(settled[|settled| - 1].node).Abort?
  }

  ghost predicate AboveFloor<Id(!new)>(heap: multiset<Entry<Id>>, floor: nat) {
    forall e :: e in heap ==> floor <= e.cost
  }

  ghost predicate CostsSorted<Id>(s: seq<Entry<Id>>) {
    forall i, j :: 0 <= i < j < |s| ==> s[i].cost <= s[j].cost
  }

  /** Consecutive ids of `p` are joined by hops. */
  ghost predicate IsWalk<Id(!new), P(!new)>(expand: Id -> Expansion<Id, P>, p: seq<Id>) {
    forall i :: 0 < i < |p| ==> exists h :: h in Hops(expand(p[i - 1])) && h.to == p[i]
  }

  /**
    Under min-first popping every link is tight: the predecessor's distance
    is at most `floor`, the cost of the last expansion (so it is final), and
    the link's weight closes the gap to the node's distance exactly.
  */
  ghost predicate Tight<Id(!new), P(!new)>(dist: map<Id, nat>, preds: map<Id, Id>, link: map<Id, Hop<Id, P>>, floor: nat) {
    forall v {:trigger preds[v]} :: v in preds ==>
      v in dist && v in link && preds[v] in dist && dist[preds[v]] <= floor &&
      dist[preds[v]] + link[v].weight == dist[v]
  }

  /** The total of a sequence of weights. */
  function Sum(ws: seq<nat>): nat {
    if ws == [] then 0 else Sum(ws[..|ws| - 1]) + ws[|ws| - 1]
  }

  /** The weights of the hops that justify the links along `p`, one per step. */
  ghost function LinkWeights<Id, P>(link: map<Id, Hop<Id, P>>, p: seq<Id>): (ws: seq<nat>)
    ensures |ws| == if p == [] then 0 else |p| - 1
    ensures forall i :: 0 < i < |p| && p[i] in link ==> ws[i - 1] == link[p[i]].weight
  {
    if |p| <= 1 then []
    else LinkWeights(link, p[..|p| - 1]) + [if p[|p| - 1] in link then link[p[|p| - 1]].weight else 0]
  }

  /** Every step of `p` is taken by the hop that justifies its link. */
  ghost predicate LinkHops<Id(!new), P(!new)>(expand: Id -> Expansion<Id, P>, link: map<Id, Hop<Id, P>>, p: seq<Id>) {
    forall i :: 0 < i < |p| ==> p[i] in link && link[p[i]] in Hops(expand(p[i - 1])) && link[p[i]].to == p[i]
  }

  /**
    `v` was expanded without a panic and none of its hops can improve a
    distance any more: every neighbour's distance is within the hop.
  */
  ghost predicate Relaxed<Id(!new), P(!new)>(expand: Id -> Expansion<Id, P>, unseen: nat, dist: map<Id, nat>, v: Id) {
    v in dist && !expand(v).Abort? &&
    forall h :: h in Hops(expand(v)) ==> GetOr(dist, h.to, unseen) <= dist[v] + h.weight
  }

  /** A reached node still waits in the heap at its distance, or is relaxed. */
  ghost predicate Covered<Id(!new), P(!new)>(expand: Id -> Expansion<Id, P>, unseen: nat, dist: map<Id, nat>,
                                             heap: multiset<Entry<Id>>, v: Id) {
    v in dist && (Entry(dist[v], v) in heap || Relaxed(expand, unseen, dist, v))
  }

  /** Every reached node is covered: the search has not lost track of any of them. */
  ghost predicate Frontier<Id(!new), P(!new)>(expand: Id -> Expansion<Id, P>, unseen: nat, dist: map<Id, nat>,
                                              heap: multiset<Entry<Id>>) {
    forall v {:trigger Covered(expand, unseen, dist, heap, v)} :: v in dist ==> Covered(expand, unseen, dist, heap, v)
  }

  /** Every reached node other than `u`, the one being expanded, is covered. */
  ghost predicate FrontierBut<Id(!new), P(!new)>(expand: Id -> Expansion<Id, P>, unseen: nat, dist: map<Id, nat>,
                                                 heap: multiset<Entry<Id>>, u: Id) {
    forall v {:trigger Covered(expand, unseen, dist, heap, v)} :: v in dist && v != u ==> Covered(expand, unseen, dist, heap, v)
  }

  /** Every reached node is relaxed: no hop can improve any distance. */
  ghost predicate AllRelaxed<Id(!new), P(!new)>(expand: Id -> Expansion<Id, P>, unseen: nat, dist: map<Id, nat>) {
    forall v {:trigger Relaxed(expand, unseen, dist, v)} :: v in dist ==> Relaxed(expand, unseen, dist, v)
  }

  /** The first `i` of `hops`, taken from a node at distance `c`, are relaxed. */
  ghost predicate HopsRelaxed<Id(!new), P(!new)>(unseen: nat, dist: map<Id, nat>, c: nat, hops: seq<Hop<Id, P>>, i: int) {
    forall j :: 0 <= j < i && j < |hops| ==> GetOr(dist, hops[j].to, unseen) <= c + hops[j].weight
  }

  /** Some hop of `a` leads to `b` with weight `w`. */
  ghost predicate HopStep<Id(!new), P(!new)>(expand: Id -> Expansion<Id, P>, a: Id, b: Id, w: nat) {
    exists h :: h in Hops(expand(a)) && h.to == b && h.weight == w
  }

  /** `p` is a walk along hops, the step into `p[i]` weighing `ws[i - 1]`. */
  ghost predicate WeighedWalk<Id(!new), P(!new)>(expand: Id -> Expansion<Id, P>, p: seq<Id>, ws: seq<nat>) {
    |ws| == |p| - 1 && forall i :: 0 < i < |p| ==> HopStep(expand, p[i - 1], p[i], ws[i - 1])
  }

  /** The hop that joins ids `i - 1` and `i` of a walk. */
  lemma WalkStep<Id(!new), P(!new)>(expand: Id -> Expansion<Id, P>, p: seq<Id>, i: int) returns (h: Hop<Id, P>)
    requires IsWalk(expand, p) && 0 < i < |p|
    ensures h in Hops(expand(p[i - 1])) && h.to == p[i]
  {
    var q := p[i - 1];
    assert p[i - 1] == q;
    assert exists h :: h in Hops(expand(q)) && h.to == p[i];
    h :| h in Hops(expand(q)) && h.to == p[i];
  }

  // ---------------------------------------------------------------------------
  // The termination measure

  /**
    The improvements still possible: one pair `(v, d)` for every node `v` of
    the universe and every distance `d` below its recorded one (`unseen` when
    absent). Every strict improvement removes pairs and adds none.
  */
  ghost function Slots<Id(!new)>(dist: map<Id, nat>, universe: set<Id>, unseen: nat): set<(Id, nat)> {
    set v, d: nat | v in universe && d < GetOr(dist, v, unseen) :: (v, d)
  }

  lemma SlotsShrink<Id(!new)>(dist: map<Id, nat>, universe: set<Id>, unseen: nat, x: Id, c: nat)
    requires c < GetOr(dist, x, unseen) && x in universe
    ensures Slots(dist[x := c], universe, unseen) <= Slots(dist, universe, unseen)
    ensures (x, c) in Slots(dist, universe, unseen) - Slots(dist[x := c], universe, unseen)
  {
  }

  /** A heap holding `y` has an entry of least cost (found by descending from `y`). */
  lemma {:induction false} MinExists<Id>(heap: multiset<Entry<Id>>, y: Entry<Id>)
    requires y in heap
    ensures exists e :: e in heap && forall x :: x in heap ==> e.cost <= x.cost
    decreases y.cost
  {
    if !(forall x :: x in heap ==> y.cost <= x.cost) {
      var x :| x in heap && x.cost < y.cost;
      MinExists(heap, x);
    }
  }

  // ---------------------------------------------------------------------------
  // One relaxation

  /**
    Relaxing hop `h` of the freshly popped, up-to-date node `u` (cost `c ==
    distances[u]`) with a strict improvement keeps the maps consistent: the
    distance, the predecessor and the cache entry are written together, and
    the new distance is `c + weight`. Neither the source nor `u` itself can be
    improved this way.
  */
  lemma RelaxConsistent<Id(!new), P(!new)>(expand: Id -> Expansion<Id, P>, unseen: nat, start: Id,
                                           dist: map<Id, nat>, preds: map<Id, Id>, nodes: map<Id, P>,
                                           link: map<Id, Hop<Id, P>>, u: Id, c: nat, h: Hop<Id, P>)
    requires Consistent(expand, unseen, start, dist, preds, nodes, link)
    requires u in dist && dist[u] == c && h in Hops(expand(u))
    requires c + h.weight < GetOr(dist, h.to, unseen)
    ensures h.to != start && h.to != u
    ensures Consistent(expand, unseen, start, dist[h.to := c + h.weight], preds[h.to := u], nodes[h.to := h.rec], link[h.to := h])
  {
    RelaxShaped(unseen, start, dist, preds, nodes, u, c, h.to, c + h.weight, h.rec);
    RelaxJustified(expand, dist, preds, nodes, link, u, c, h);
  }

  /** The keys and bounds survive writing `v`'s entries with a distance below the default. */
  lemma RelaxShaped<Id(!new), P(!new)>(unseen: nat, start: Id, dist: map<Id, nat>, preds: map<Id, Id>,
                                       nodes: map<Id, P>, u: Id, c: nat, v: Id, nc: nat, rec: P)
    requires Shaped(unseen, start, dist, preds, nodes)
    requires u in dist && dist[u] == c && c <= nc && nc < GetOr(dist, v, unseen)
    ensures v != start && v != u
    ensures Shaped(unseen, start, dist[v := nc], preds[v := u], nodes[v := rec])
  {
    var dist', preds', nodes' := dist[v := nc], preds[v := u], nodes[v := rec];
    assert nodes'.Keys == dist'.Keys;
    assert forall x :: x in preds' ==> x in dist' && preds'[x] in dist';
    assert forall x :: x in dist' ==> x == start || x in preds';
  }

  /** The new link is justified by `h`, and every other link still is. */
  lemma RelaxJustified<Id(!new), P(!new)>(expand: Id -> Expansion<Id, P>, dist: map<Id, nat>, preds: map<Id, Id>,
                                          nodes: map<Id, P>, link: map<Id, Hop<Id, P>>, u: Id, c: nat, h: Hop<Id, P>)
    requires AllJustified(expand, dist, preds, nodes, link)
    requires u in dist && dist[u] == c && h in Hops(expand(u))
    requires h.to in dist ==> c + h.weight < dist[h.to]
    ensures AllJustified(expand, dist[h.to := c + h.weight], preds[h.to := u], nodes[h.to := h.rec], link[h.to := h])
  {
    var v, nc := h.to, c + h.weight;
    var dist', preds', nodes', link' := dist[v := nc], preds[v := u], nodes[v := h.rec], link[v := h];
    forall x | x in preds'
      ensures Justified(expand, dist', preds', nodes', link', x)
    {
      if x != v {
        JustifiedKept(expand, dist, preds, nodes, link, v, nc, u, h, x);
      }
    }
  }

  /** Lowering `v`'s distance leaves every other node's link justified: its predecessor only got closer. */
  lemma JustifiedKept<Id(!new), P(!new)>(expand: Id -> Expansion<Id, P>, dist: map<Id, nat>, preds: map<Id, Id>,
                                         nodes: map<Id, P>, link: map<Id, Hop<Id, P>>,
                                         v: Id, nc: nat, u: Id, h: Hop<Id, P>, x: Id)
    requires x != v && Justified(expand, dist, preds, nodes, link, x)
    requires v in dist ==> nc < dist[v]
    ensures Justified(expand, dist[v := nc], preds[v := u], nodes[v := h.rec], link[v := h], x)
  {
  }

  /** Relaxing from a node at the floor keeps every link tight: no predecessor can be the improved node. */
  lemma RelaxTight<Id(!new), P(!new)>(dist: map<Id, nat>, preds: map<Id, Id>, link: map<Id, Hop<Id, P>>,
                                      u: Id, c: nat, h: Hop<Id, P>)
    requires Tight(dist, preds, link, c) && u in dist && dist[u] == c
    requires h.to in dist ==> c + h.weight < dist[h.to]
    ensures Tight(dist[h.to := c + h.weight], preds[h.to := u], link[h.to := h], c)
  {
    var v := h.to;
    var dist', preds', link' := dist[v := c + h.weight], preds[v := u], link[v := h];
    forall x | x in preds'
      ensures x in dist' && x in link' && preds'[x] in dist' && dist'[preds'[x]] <= c
      ensures dist'[preds'[x]] + link'[x].weight == dist'[x]
    {
      if x != v {
        assert preds[x] in dist && dist[preds[x]] <= c;
      }
    }
  }

  /** A higher floor keeps the links tight. */
  lemma TightRaise<Id(!new), P(!new)>(dist: map<Id, nat>, preds: map<Id, Id>, link: map<Id, Hop<Id, P>>, f: nat, g: nat)
    requires Tight(dist, preds, link, f) && f <= g
    ensures Tight(dist, preds, link, g)
  {
  }

  /**
    Along a link path from the source of a consistent state the justifying
    hops weigh at most the distance of its last node, and exactly that when
    the links are tight.
  */
  lemma {:induction false} LinkWeightsBound<Id(!new), P(!new)>(expand: Id -> Expansion<Id, P>, unseen: nat, start: Id,
                                                              dist: map<Id, nat>, preds: map<Id, Id>, nodes: map<Id, P>,
                                                              link: map<Id, Hop<Id, P>>, floor: nat, p: seq<Id>)
    requires Consistent(expand, unseen, start, dist, preds, nodes, link)
    requires |p| > 0 && p[0] == start && forall i :: 0 < i < |p| ==> p[i] in preds && preds[p[i]] == p[i - 1]
    ensures p[|p| - 1] in dist && LinkHops(expand, link, p)
    ensures Sum(LinkWeights(link, p)) <= dist[p[|p| - 1]]
    ensures Tight(dist, preds, link, floor) ==> Sum(LinkWeights(link, p)) == dist[p[|p| - 1]]
  {
    if |p| > 1 {
      var q := p[..|p| - 1];
      LinkWeightsBound(expand, unseen, start, dist, preds, nodes, link, floor, q);
      var v := p[|p| - 1];
      assert Justified(expand, dist, preds, nodes, link, v);
      var ws := LinkWeights(link, p);
      assert ws[..|ws| - 1] == LinkWeights(link, q);
      assert LinkHops(expand, link, p) by {
        forall i | 0 < i < |p|
          ensures p[i] in link && link[p[i]] in Hops(expand(p[i - 1])) && link[p[i]].to == p[i]
        {
          if i < |p| - 1 {
            assert q[i] == p[i] && q[i - 1] == p[i - 1];
          }
        }
      }
    }
  }

  /** The same relaxation keeps the ghost rank: the new link points strictly down. */
  lemma RelaxRanked<Id(!new)>(dist: map<Id, nat>, preds: map<Id, Id>, rank: map<Id, Rank>, clock: nat,
                              u: Id, v: Id, nc: nat)
    requires RankInv(dist, preds, rank, clock)
    requires u in dist && dist[u] <= nc && u != v
    requires v in dist ==> nc < dist[v]
    ensures RankInv(dist[v := nc], preds[v := u], rank[v := Rank(nc, clock)], clock + 1)
  {
    var preds', rank' := preds[v := u], rank[v := Rank(nc, clock)];
    forall x | x in preds'
      ensures x in rank' && preds'[x] in rank' && Below(rank'[preds'[x]], rank'[x])
    {
      if x != v && preds[x] == v {
        assert Below(rank[v], rank[x]);
      }
    }
  }

  /** The pushed entry carries exactly the new distance; older entries only got further above it. */
  lemma RelaxHeap<Id(!new)>(dist: map<Id, nat>, heap: multiset<Entry<Id>>, v: Id, nc: nat)
    requires HeapInv(dist, heap)
    requires v in dist ==> nc < dist[v]
    ensures HeapInv(dist[v := nc], heap + multiset{Entry(nc, v)})
  {
  }

  /** With a consistent state, every reached node has a chain back to the source. */
  lemma {:induction false} ReachedHasChain<Id(!new), P(!new)>(expand: Id -> Expansion<Id, P>, unseen: nat, start: Id,
                                                             dist: map<Id, nat>, preds: map<Id, Id>, nodes: map<Id, P>,
                                                             link: map<Id, Hop<Id, P>>, rank: map<Id, Rank>, clock: nat, v: Id)
    requires Consistent(expand, unseen, start, dist, preds, nodes, link) && RankInv(dist, preds, rank, clock)
    requires v in dist
    ensures Chain(preds, start, v, rank).Some?
    decreases if v in rank then rank[v].major else 0, if v in rank then rank[v].minor else 0
  {
    if v != start {
      ReachedHasChain(expand, unseen, start, dist, preds, nodes, link, rank, clock, preds[v]);
    }
  }

  /** A link path through justified links is a walk along hops. */
  lemma LinkPathIsWalk<Id(!new), P(!new)>(expand: Id -> Expansion<Id, P>, unseen: nat, start: Id, end: Id,
                                          dist: map<Id, nat>, preds: map<Id, Id>, nodes: map<Id, P>,
                                          link: map<Id, Hop<Id, P>>, p: seq<Id>)
    requires Consistent(expand, unseen, start, dist, preds, nodes, link)
    requires LinkPath(preds, start, end, p)
    ensures IsWalk(expand, p)
  {
    forall i | 0 < i < |p|
      ensures exists h :: h in Hops(expand(p[i - 1])) && h.to == p[i]
    {
      assert Justified(expand, dist, preds, nodes, link, p[i]);
    }
  }

  /** A reached node's chain of predecessors is a link path and a walk. */
  lemma ReachedPath<Id(!new), P(!new)>(expand: Id -> Expansion<Id, P>, unseen: nat, start: Id, end: Id,
                                       dist: map<Id, nat>, preds: map<Id, Id>, nodes: map<Id, P>,
                                       link: map<Id, Hop<Id, P>>, rank: map<Id, Rank>, clock: nat)
    requires Consistent(expand, unseen, start, dist, preds, nodes, link) && RankInv(dist, preds, rank, clock)
    requires end in dist
    ensures Chain(preds, start, end, rank).Some?
    ensures LinkPath(preds, start, end, Chain(preds, start, end, rank).value)
    ensures IsWalk(expand, Chain(preds, start, end, rank).value)
  {
    ReachedHasChain(expand, unseen, start, dist, preds, nodes, link, rank, clock, end);
    ChainIsLinkPath(preds, start, end, rank);
    LinkPathIsWalk(expand, unseen, start, end, dist, preds, nodes, link, Chain(preds, start, end, rank).value);
  }

  // ---------------------------------------------------------------------------
  // The search

  /**
    The `for edge in edges` block of one expansion: relax every hop of the
    popped node `node` (at its current distance `cost`) in order, writing the
    distance, the predecessor, the cache entry and the heap entry together on
    each strict improvement. The invariants survive, and either the potential
    went down or nothing changed.
  */
  method RelaxNeighbours<Id(==,!new), P(!new)>(expand: Id -> Expansion<Id, P>, unseen: nat, start: Id, startRec: P,
                                               node: Id, cost: nat, minFirst: bool,
                                               dist0: map<Id, nat>, preds0: map<Id, Id>, nodes0: map<Id, P>,
                                               heap0: multiset<Entry<Id>>, ghost link0: map<Id, Hop<Id, P>>,
                                               ghost rank0: map<Id, Rank>, ghost clock0: nat,
                                               ghost settled: seq<Entry<Id>>, ghost universe: set<Id>)
    returns (dist: map<Id, nat>, preds: map<Id, Id>, nodes: map<Id, P>, heap: multiset<Entry<Id>>,
             ghost link: map<Id, Hop<Id, P>>, ghost rank: map<Id, Rank>, ghost clock: nat)
    requires Consistent(expand, unseen, start, dist0, preds0, nodes0, link0) && nodes0[start] == startRec
    requires RankInv(dist0, preds0, rank0, clock0) && HeapInv(dist0, heap0)
    requires node in dist0 && dist0[node] == cost
    requires minFirst ==> SettledInv(dist0, settled, cost) && AboveFloor(heap0, cost) && Tight(dist0, preds0, link0, cost)
    requires Closed(expand, universe)
    requires FrontierBut(expand, unseen, dist0, heap0, node)
    ensures Consistent(expand, unseen, start, dist, preds, nodes, link) && nodes[start] == startRec
    ensures RankInv(dist, preds, rank, clock) && HeapInv(dist, heap)
    ensures minFirst ==> SettledInv(dist, settled, cost) && AboveFloor(heap, cost) && Tight(dist, preds, link, cost)
    ensures node in dist && dist[node] == cost
    ensures FrontierBut(expand, unseen, dist, heap, node)
    ensures HopsRelaxed(unseen, dist, cost, Hops(expand(node)), |Hops(expand(node))|)
    ensures Slots(dist, universe, unseen) < Slots(dist0, universe, unseen) || (dist == dist0 && heap == heap0)
    ensures NoIncrease(dist0, dist)
  {
    dist, preds, nodes, heap, link, rank, clock := dist0, preds0, nodes0, heap0, link0, rank0, clock0;
    var hops := Hops(expand(node));
    var i := 0;
    ghost var changed := false;
    while i < |hops|
      invariant 0 <= i <= |hops|
      invariant Consistent(expand, unseen, start, dist, preds, nodes, link) && nodes[start] == startRec
      invariant RankInv(dist, preds, rank, clock) && HeapInv(dist, heap)
      invariant node in dist && dist[node] == cost
      invariant minFirst ==> SettledInv(dist, settled, cost) && AboveFloor(heap, cost) && Tight(dist, preds, link, cost)
      invariant changed ==> Slots(dist, universe, unseen) < Slots(dist0, universe, unseen)
      invariant !changed ==> dist == dist0 && heap == heap0
      invariant NoIncrease(dist0, dist)
      invariant FrontierBut(expand, unseen, dist, heap, node) && HopsRelaxed(unseen, dist, cost, hops, i)
    {
      var improved;
      dist, preds, nodes, heap, link, rank, clock, improved :=
        Relax(expand, unseen, start, startRec, node, cost, hops[i], minFirst, dist, preds, nodes, heap,
              link, rank, clock, settled, universe, hops, i);
      changed := changed || improved;
      i := i + 1;
    }
  }

  /**
    One hop of the `for edge in edges` block: on a strict improvement of
    `h.to`'s distance write the distance, the predecessor, the cache entry and
    a heap entry; otherwise change nothing.
  */
  method Relax<Id(==,!new), P(!new)>(expand: Id -> Expansion<Id, P>, unseen: nat, start: Id, startRec: P,
                                     u: Id, c: nat, h: Hop<Id, P>, minFirst: bool,
                                     dist0: map<Id, nat>, preds0: map<Id, Id>, nodes0: map<Id, P>,
                                     heap0: multiset<Entry<Id>>, ghost link0: map<Id, Hop<Id, P>>,
                                     ghost rank0: map<Id, Rank>, ghost clock0: nat,
                                     ghost settled: seq<Entry<Id>>, ghost universe: set<Id>,
                                     ghost hops: seq<Hop<Id, P>>, ghost i: int)
    returns (dist: map<Id, nat>, preds: map<Id, Id>, nodes: map<Id, P>, heap: multiset<Entry<Id>>,
             ghost link: map<Id, Hop<Id, P>>, ghost rank: map<Id, Rank>, ghost clock: nat, improved: bool)
    requires Consistent(expand, unseen, start, dist0, preds0, nodes0, link0) && nodes0[start] == startRec
    requires RankInv(dist0, preds0, rank0, clock0) && HeapInv(dist0, heap0)
    requires u in dist0 && dist0[u] == c && h in Hops(expand(u))
    requires minFirst ==> SettledInv(dist0, settled, c) && AboveFloor(heap0, c) && Tight(dist0, preds0, link0, c)
    requires Closed(expand, universe)
    requires 0 <= i < |hops| && hops[i] == h
    requires FrontierBut(expand, unseen, dist0, heap0, u) && HopsRelaxed(unseen, dist0, c, hops, i)
    ensures improved <==> c + h.weight < GetOr(dist0, h.to, unseen)
    ensures improved ==> dist == dist0[h.to := c + h.weight] && preds == preds0[h.to := u] &&
                         nodes == nodes0[h.to := h.rec] && heap == heap0 + multiset{Entry(c + h.weight, h.to)}
    ensures !improved ==> dist == dist0 && preds == preds0 && nodes == nodes0 && heap == heap0
    ensures Consistent(expand, unseen, start, dist, preds, nodes, link) && nodes[start] == startRec
    ensures RankInv(dist, preds, rank, clock) && HeapInv(dist, heap)
    ensures u in dist && dist[u] == c
    ensures minFirst ==> SettledInv(dist, settled, c) && AboveFloor(heap, c) && Tight(dist, preds, link, c)
    ensures improved ==> Slots(dist, universe, unseen) < Slots(dist0, universe, unseen)
    ensures NoIncrease(dist0, dist)
    ensures FrontierBut(expand, unseen, dist, heap, u) && HopsRelaxed(unseen, dist, c, hops, i + 1)
  {
    dist, preds, nodes, heap, link, rank, clock := dist0, preds0, nodes0, heap0, link0, rank0, clock0;
    var next := h.to;
    var nextCost := c + h.weight;
    improved := nextCost < GetOr(dist, next, unseen);
    if improved {
      RelaxStep(expand, unseen, start, startRec, dist, preds, nodes, heap, link, rank, clock, u, c, h,
                minFirst, settled);
      RelaxRanked(dist, preds, rank, clock, u, next, nextCost);
      if minFirst {
        RelaxTight(dist, preds, link, u, c, h);
      }
      SlotsShrink(dist, universe, unseen, next, nextCost);
      dist := dist[next := nextCost];
      preds := preds[next := u];
      heap := heap + multiset{Entry(nextCost, next)};
      nodes := nodes[next := h.rec];
      link := link[next := h];
      rank := rank[next := Rank(nextCost, clock)];
      clock := clock + 1;
    }
    RelaxKeepsFrontier(expand, unseen, dist0, heap0, u, c, hops, i, dist, heap, improved);
  }

  /** One strict improvement keeps every invariant of the relaxation loop. */
  lemma RelaxStep<Id(!new), P(!new)>(expand: Id -> Expansion<Id, P>, unseen: nat, start: Id, startRec: P,
                                     dist: map<Id, nat>, preds: map<Id, Id>, nodes: map<Id, P>,
                                     heap: multiset<Entry<Id>>, link: map<Id, Hop<Id, P>>,
                                     rank: map<Id, Rank>, clock: nat,
                                     u: Id, c: nat, h: Hop<Id, P>,
                                     minFirst: bool, settled: seq<Entry<Id>>)
    requires Consistent(expand, unseen, start, dist, preds, nodes, link) && nodes[start] == startRec
    requires RankInv(dist, preds, rank, clock) && HeapInv(dist, heap)
    requires u in dist && dist[u] == c && h in Hops(expand(u))
    requires minFirst ==> SettledInv(dist, settled, c) && AboveFloor(heap, c)
    requires c + h.weight < GetOr(dist, h.to, unseen)
    ensures Consistent(expand, unseen, start, dist[h.to := c + h.weight], preds[h.to := u], nodes[h.to := h.rec], link[h.to := h])
    ensures nodes[h.to := h.rec][start] == startRec
    ensures h.to != u
    ensures HeapInv(dist[h.to := c + h.weight], heap + multiset{Entry(c + h.weight, h.to)})
    ensures u in dist[h.to := c + h.weight] && dist[h.to := c + h.weight][u] == c
    ensures minFirst ==> SettledInv(dist[h.to := c + h.weight], settled, c)
    ensures minFirst ==> AboveFloor(heap + multiset{Entry(c + h.weight, h.to)}, c)
  {
    RelaxConsistent(expand, unseen, start, dist, preds, nodes, link, u, c, h);
    RelaxHeap(dist, heap, h.to, c + h.weight);
    if minFirst {
      RelaxSettled(dist, settled, c, h.to, c + h.weight);
      PushAboveFloor(heap, c, Entry(c + h.weight, h.to));
    }
  }

  /** Pushing an entry no cheaper than the floor keeps the heap above it. */
  lemma PushAboveFloor<Id(!new)>(heap: multiset<Entry<Id>>, floor: nat, e: Entry<Id>)
    requires AboveFloor(heap, floor) && floor <= e.cost
    ensures AboveFloor(heap + multiset{e}, floor)
  {
  }

  /** Under min-first popping no expanded node is improved again: its distance is final. */
  lemma RelaxSettled<Id(!new)>(dist: map<Id, nat>, settled: seq<Entry<Id>>, floor: nat, v: Id, nc: nat)
    requires SettledInv(dist, settled, floor) && floor <= nc
    requires v in dist ==> nc < dist[v]
    ensures SettledInv(dist[v := nc], settled, floor)
  {
    forall x | x in settled
      ensures x.node in dist[v := nc] && dist[v := nc][x.node] == x.cost
    {
      assert x.node != v;
    }
  }

  /** Expanding an up-to-date entry of least cost keeps the settled trace sorted and final. */
  lemma SettleKeeps<Id(!new)>(dist: map<Id, nat>, heap: multiset<Entry<Id>>, settled: seq<Entry<Id>>, floor: nat, e: Entry<Id>)
    requires SettledInv(dist, settled, floor) && CostsSorted(settled)
    requires floor <= e.cost && e.node in dist && dist[e.node] == e.cost
    requires forall x :: x in heap ==> e.cost <= x.cost
    ensures SettledInv(dist, settled + [e], e.cost) && AboveFloor(heap, e.cost) && CostsSorted(settled + [e])
  {
    forall x | x in settled + [e]
      ensures x.node in dist && dist[x.node] == x.cost && x.cost <= e.cost
    {
      if x != e {
        assert x in settled;
      }
    }
  }

  /** `heap.pop()`: some entry of the heap, one of least cost under `minFirst`, and the heap without it. */
  method PopEntry<Id(==)>(heap: multiset<Entry<Id>>, minFirst: bool) returns (e: Entry<Id>, rest: multiset<Entry<Id>>)
    requires heap != multiset{}
    ensures e in heap && rest == heap - multiset{e} && |rest| < |heap|
    ensures minFirst ==> forall x :: x in heap ==> e.cost <= x.cost
    ensures minFirst ==> forall x :: x in rest ==> e.cost <= x.cost
  {
    if minFirst {
      var some :| some in heap;
      MinExists(heap, some);
    }
    e :| e in heap && (minFirst ==> forall x :: x in heap ==> e.cost <= x.cost);
    rest := heap - multiset{e};
  }

  /** Taking an entry out of the heap keeps the heap's invariants. */
  lemma HeapShrink<Id(!new)>(dist: map<Id, nat>, heap: multiset<Entry<Id>>, e: Entry<Id>, floor: nat)
    requires HeapInv(dist, heap)
    ensures HeapInv(dist, heap - multiset{e})
    ensures AboveFloor(heap, floor) ==> AboveFloor(heap - multiset{e}, floor)
  {
    forall x | x in heap - multiset{e}
      ensures x in heap
    {
    }
  }

  // ---------------------------------------------------------------------------
  // Completeness: no reached node is lost

  /** Lowering another node's distance keeps a relaxed node relaxed: its neighbours only got closer. */
  lemma RelaxedKept<Id(!new), P(!new)>(expand: Id -> Expansion<Id, P>, unseen: nat, dist: map<Id, nat>,
                                       x: Id, nc: nat, v: Id)
    requires Relaxed(expand, unseen, dist, v) && v != x
    requires nc < GetOr(dist, x, unseen)
    ensures Relaxed(expand, unseen, dist[x := nc], v)
  {
    forall h | h in Hops(expand(v))
      ensures GetOr(dist[x := nc], h.to, unseen) <= dist[x := nc][v] + h.weight
    {
      assert GetOr(dist[x := nc], h.to, unseen) <= GetOr(dist, h.to, unseen);
    }
  }

  /** A strict improvement of `x`, with its entry pushed, keeps every node but `u` covered. */
  lemma FrontierImprove<Id(!new), P(!new)>(expand: Id -> Expansion<Id, P>, unseen: nat, dist: map<Id, nat>,
                                           heap: multiset<Entry<Id>>, u: Id, x: Id, nc: nat)
    requires FrontierBut(expand, unseen, dist, heap, u)
    requires nc < GetOr(dist, x, unseen)
    ensures FrontierBut(expand, unseen, dist[x := nc], heap + multiset{Entry(nc, x)}, u)
  {
    var dist', heap' := dist[x := nc], heap + multiset{Entry(nc, x)};
    forall v | v in dist' && v != u
      ensures Covered(expand, unseen, dist', heap', v)
    {
      if v == x {
        assert Entry(dist'[v], v) in heap';
      } else {
        assert Covered(expand, unseen, dist, heap, v);
        if Entry(dist[v], v) in heap {
          assert Entry(dist'[v], v) in heap';
        } else {
          RelaxedKept(expand, unseen, dist, x, nc, v);
        }
      }
    }
  }

  /** Improving the target of hop `i` to exactly `c + weight` relaxes it and keeps the earlier hops relaxed. */
  lemma HopsRelaxedImprove<Id(!new), P(!new)>(unseen: nat, dist: map<Id, nat>, c: nat, hops: seq<Hop<Id, P>>, i: int, nc: nat)
    requires HopsRelaxed(unseen, dist, c, hops, i) && 0 <= i < |hops|
    requires nc == c + hops[i].weight && nc < GetOr(dist, hops[i].to, unseen)
    ensures HopsRelaxed(unseen, dist[hops[i].to := nc], c, hops, i + 1)
  {
    var dist' := dist[hops[i].to := nc];
    forall j | 0 <= j < i + 1 && j < |hops|
      ensures GetOr(dist', hops[j].to, unseen) <= c + hops[j].weight
    {
      assert GetOr(dist', hops[j].to, unseen) <= GetOr(dist, hops[j].to, unseen);
    }
  }

  /** Relaxing hop `i` of `u`, whether it improves its target or not, keeps the frontier and relaxes one more hop. */
  lemma RelaxKeepsFrontier<Id(!new), P(!new)>(expand: Id -> Expansion<Id, P>, unseen: nat, dist: map<Id, nat>,
                                              heap: multiset<Entry<Id>>, u: Id, c: nat, hops: seq<Hop<Id, P>>, i: int,
                                              dist': map<Id, nat>, heap': multiset<Entry<Id>>, improved: bool)
    requires FrontierBut(expand, unseen, dist, heap, u) && HopsRelaxed(unseen, dist, c, hops, i) && 0 <= i < |hops|
    requires improved <==> c + hops[i].weight < GetOr(dist, hops[i].to, unseen)
    requires improved ==> dist' == dist[hops[i].to := c + hops[i].weight] &&
                          heap' == heap + multiset{Entry(c + hops[i].weight, hops[i].to)}
    requires !improved ==> dist' == dist && heap' == heap
    ensures FrontierBut(expand, unseen, dist', heap', u) && HopsRelaxed(unseen, dist', c, hops, i + 1)
  {
    if improved {
      FrontierImprove(expand, unseen, dist, heap, u, hops[i].to, c + hops[i].weight);
      HopsRelaxedImprove(unseen, dist, c, hops, i, c + hops[i].weight);
    }
  }

  /** Once every hop of a non-panicking `u` is relaxed, `u` is relaxed, so every node is covered. */
  lemma FrontierJoin<Id(!new), P(!new)>(expand: Id -> Expansion<Id, P>, unseen: nat, dist: map<Id, nat>,
                                        heap: multiset<Entry<Id>>, u: Id)
    requires FrontierBut(expand, unseen, dist, heap, u)
    requires u in dist && !expand(u).Abort?
    requires HopsRelaxed(unseen, dist, dist[u], Hops(expand(u)), |Hops(expand(u))|)
    ensures Frontier(expand, unseen, dist, heap)
  {
    var hops := Hops(expand(u));
    forall h | h in hops
      ensures GetOr(dist, h.to, unseen) <= dist[u] + h.weight
    {
      var j :| 0 <= j < |hops| && hops[j] == h;
    }
    assert Relaxed(expand, unseen, dist, u);
  }

  /** Popping `e` leaves every other node covered, and every node when `e` was stale. */
  lemma FrontierPop<Id(!new), P(!new)>(expand: Id -> Expansion<Id, P>, unseen: nat, dist: map<Id, nat>,
                                       heap: multiset<Entry<Id>>, e: Entry<Id>)
    requires Frontier(expand, unseen, dist, heap)
    ensures FrontierBut(expand, unseen, dist, heap - multiset{e}, e.node)
    ensures e.node in dist && e.cost != dist[e.node] ==> Frontier(expand, unseen, dist, heap - multiset{e})
  {
    forall v | v in dist && (v != e.node || e.cost != dist[v])
      ensures Covered(expand, unseen, dist, heap - multiset{e}, v)
    {
      assert Entry(dist[v], v) != e;
      assert Covered(expand, unseen, dist, heap, v);
    }
  }

  /** The source alone, waiting in the heap at distance 0, is covered. */
  lemma FrontierStart<Id(!new), P(!new)>(expand: Id -> Expansion<Id, P>, unseen: nat, start: Id)
    ensures Frontier(expand, unseen, map[start := 0], multiset{Entry(0, start)})
  {
    assert Covered(expand, unseen, map[start := 0], multiset{Entry(0, start)}, start);
  }

  /** With the heap empty, every reached node is relaxed. */
  lemma FrontierEmpty<Id(!new), P(!new)>(expand: Id -> Expansion<Id, P>, unseen: nat, dist: map<Id, nat>,
                                         heap: multiset<Entry<Id>>)
    requires Frontier(expand, unseen, dist, heap) && heap == multiset{}
    ensures AllRelaxed(expand, unseen, dist)
  {
    forall v | v in dist
      ensures Relaxed(expand, unseen, dist, v)
    {
      assert Covered(expand, unseen, dist, heap, v);
    }
  }

  /**
    When every reached node is relaxed, a walk from a reached node, whose
    steps out of reached nodes are hops, reaches its last node within its
    weight, as long as that stays below `unseen`.
  */
  lemma {:induction false} RelaxedReach<Id(!new), P(!new)>(expand: Id -> Expansion<Id, P>, unseen: nat,
                                                           dist: map<Id, nat>, p: seq<Id>, ws: seq<nat>)
    requires AllRelaxed(expand, unseen, dist)
    requires |p| > 0 && p[0] in dist && |ws| == |p| - 1
    requires forall i :: 0 < i < |p| && p[i - 1] in dist ==> HopStep(expand, p[i - 1], p[i], ws[i - 1])
    requires dist[p[0]] + Sum(ws) < unseen
    ensures p[|p| - 1] in dist && dist[p[|p| - 1]] <= dist[p[0]] + Sum(ws)
  {
    if |p| > 1 {
      var q, vs := p[..|p| - 1], ws[..|ws| - 1];
      forall i | 0 < i < |q| && q[i - 1] in dist
        ensures HopStep(expand, q[i - 1], q[i], vs[i - 1])
      {
        assert q[i - 1] == p[i - 1] && q[i] == p[i] && vs[i - 1] == ws[i - 1];
      }
      RelaxedReach(expand, unseen, dist, q, vs);
      var a, b := p[|p| - 2], p[|p| - 1];
      assert a == q[|q| - 1];
      assert HopStep(expand, a, b, ws[|ws| - 1]);
      var h :| h in Hops(expand(a)) && h.to == b && h.weight == ws[|ws| - 1];
      assert Relaxed(expand, unseen, dist, a);
    }
  }

  /** How one pop ended: the loop goes on, the destination was popped, or the expansion panicked. */
  datatype Visit = Next | AtEnd | Failed

  /**
    One turn of the `while let Some(State { cost, node }) = heap.pop()` loop:
    pop an entry (one of least cost under `minFirst`); stop at the
    destination; skip a stale entry; otherwise expand the node and relax its
    hops. Every turn that goes on shrinks the termination measure.
  */
  method Pop<Id(==,!new), P(!new)>(expand: Id -> Expansion<Id, P>, unseen: nat, start: Id, startRec: P, end: Id,
                                   minFirst: bool, ghost universe: set<Id>,
                                   dist0: map<Id, nat>, preds0: map<Id, Id>, nodes0: map<Id, P>,
                                   heap0: multiset<Entry<Id>>, ghost link0: map<Id, Hop<Id, P>>,
                                   ghost rank0: map<Id, Rank>, ghost clock0: nat,
                                   ghost settled0: seq<Entry<Id>>, ghost floor0: nat)
    returns (dist: map<Id, nat>, preds: map<Id, Id>, nodes: map<Id, P>, heap: multiset<Entry<Id>>,
             ghost link: map<Id, Hop<Id, P>>, ghost rank: map<Id, Rank>, ghost clock: nat,
             ghost settled: seq<Entry<Id>>, ghost floor: nat, popped: Entry<Id>, visit: Visit)
    requires heap0 != multiset{} && Closed(expand, universe)
    requires Consistent(expand, unseen, start, dist0, preds0, nodes0, link0) && nodes0[start] == startRec
    requires RankInv(dist0, preds0, rank0, clock0) && HeapInv(dist0, heap0)
    requires forall e :: e in settled0 ==> e.node != end
    requires minFirst ==> SettledInv(dist0, settled0, floor0) && AboveFloor(heap0, floor0) && CostsSorted(settled0)
    requires minFirst ==> Tight(dist0, preds0, link0, floor0)
    requires Frontier(expand, unseen, dist0, heap0)
    ensures Consistent(expand, unseen, start, dist, preds, nodes, link) && nodes[start] == startRec
    ensures RankInv(dist, preds, rank, clock) && HeapInv(dist, heap)
    ensures forall e :: e in settled ==> e.node != end
    ensures minFirst ==> SettledInv(dist, settled, floor) && AboveFloor(heap, floor) && CostsSorted(settled)
    ensures minFirst ==> Tight(dist, preds, link, floor)
    ensures visit.Failed? ==> EndsInAbort(expand, settled)
    ensures popped in heap0 && (minFirst ==> forall x :: x in heap0 ==> popped.cost <= x.cost)
    ensures visit.AtEnd? <==> popped.node == end
    ensures visit.Failed? <==> Expanded(popped, end, dist0, unseen) && expand(popped.node).Abort?
    ensures settled == if Expanded(popped, end, dist0, unseen) then settled0 + [popped] else settled0
    ensures !(Expanded(popped, end, dist0, unseen) && expand(popped.node).Expand?) ==>
              dist == dist0 && preds == preds0 && nodes == nodes0 && heap == heap0 - multiset{popped}
    ensures NoIncrease(dist0, dist)
    ensures visit.Next? ==> Slots(dist, universe, unseen) < Slots(dist0, universe, unseen) ||
                            (Slots(dist, universe, unseen) == Slots(dist0, universe, unseen) && |heap| < |heap0|)
    ensures visit.Next? ==> Frontier(expand, unseen, dist, heap)
  {
    dist, preds, nodes, heap, link, rank, clock, settled, floor := dist0, preds0, nodes0, heap0, link0, rank0, clock0, settled0, floor0;
    var e;
    e, heap := PopEntry(heap, minFirst);
    HeapShrink(dist, heap0, e, floor);
    FrontierPop(expand, unseen, dist, heap0, e);
    var cost, node := e.cost, e.node;
    if node == end {
      return dist, preds, nodes, heap, link, rank, clock, settled, floor, e, AtEnd;
    }
    if cost > GetOr(dist, node, unseen) {
      return dist, preds, nodes, heap, link, rank, clock, settled, floor, e, Next;
    }
    var failed;
    dist, preds, nodes, heap, link, rank, clock, settled, floor, failed :=
      Settle(expand, unseen, start, startRec, minFirst, universe, dist, preds, nodes, heap, link, rank, clock,
             settled, floor, e);
    popped, visit := e, if failed then Failed else Next;
  }

  /**
    The rest of a turn for an up-to-date entry `e` that is not the
    destination: record it as expanded, then relax the hops of its node, or
    stop when the expansion panics.
  */
  method Settle<Id(==,!new), P(!new)>(expand: Id -> Expansion<Id, P>, unseen: nat, start: Id, startRec: P,
                                      minFirst: bool, ghost universe: set<Id>,
                                      dist0: map<Id, nat>, preds0: map<Id, Id>, nodes0: map<Id, P>,
                                      heap0: multiset<Entry<Id>>, ghost link0: map<Id, Hop<Id, P>>,
                                      ghost rank0: map<Id, Rank>, ghost clock0: nat,
                                      ghost settled0: seq<Entry<Id>>, ghost floor0: nat, e: Entry<Id>)
    returns (dist: map<Id, nat>, preds: map<Id, Id>, nodes: map<Id, P>, heap: multiset<Entry<Id>>,
             ghost link: map<Id, Hop<Id, P>>, ghost rank: map<Id, Rank>, ghost clock: nat,
             ghost settled: seq<Entry<Id>>, ghost floor: nat, failed: bool)
    requires Closed(expand, universe)
    requires Consistent(expand, unseen, start, dist0, preds0, nodes0, link0) && nodes0[start] == startRec
    requires RankInv(dist0, preds0, rank0, clock0) && HeapInv(dist0, heap0)
    requires e.node in dist0 && dist0[e.node] == e.cost
    requires minFirst ==> SettledInv(dist0, settled0, floor0) && CostsSorted(settled0) && Tight(dist0, preds0, link0, floor0)
    requires minFirst ==> floor0 <= e.cost && forall x :: x in heap0 ==> e.cost <= x.cost
    requires FrontierBut(expand, unseen, dist0, heap0, e.node)
    ensures settled == settled0 + [e]
    ensures Consistent(expand, unseen, start, dist, preds, nodes, link) && nodes[start] == startRec
    ensures RankInv(dist, preds, rank, clock) && HeapInv(dist, heap)
    ensures minFirst ==> SettledInv(dist, settled, floor) && AboveFloor(heap, floor) && CostsSorted(settled)
    ensures minFirst ==> Tight(dist, preds, link, floor)
    ensures failed <==> expand(e.node).Abort?
    ensures !expand(e.node).Expand? ==> dist == dist0 && preds == preds0 && nodes == nodes0 && heap == heap0
    ensures NoIncrease(dist0, dist)
    ensures Slots(dist, universe, unseen) < Slots(dist0, universe, unseen) || (dist == dist0 && heap == heap0)
    ensures !failed ==> Frontier(expand, unseen, dist, heap)
  {
    dist, preds, nodes, heap, link, rank, clock, settled, floor := dist0, preds0, nodes0, heap0, link0, rank0, clock0, settled0, floor0;
    if minFirst {
      SettleKeeps(dist, heap, settled, floor, e);
      TightRaise(dist, preds, link, floor, e.cost);
    }
    settled := settled + [e];
    floor := e.cost;
    var expansion := expand(e.node);
    failed := expansion.Abort?;
    if expansion.Expand? {
      dist, preds, nodes, heap, link, rank, clock :=
        RelaxNeighbours(expand, unseen, start, startRec, e.node, e.cost, minFirst, dist, preds, nodes, heap,
                        link, rank, clock, settled, universe);
    }
    if !failed {
      FrontierJoin(expand, unseen, dist, heap, e.node);
    }
  }

  /**
    The `while let Some(State { cost, node }) = heap.pop()` loop, from the
    source alone at distance 0 until the heap is empty, the destination is
    popped, or an expansion panics.
  */
  method Explore<Id(==,!new), P(!new)>(expand: Id -> Expansion<Id, P>, unseen: nat, start: Id, startRec: P, end: Id,
                                       minFirst: bool, ghost universe: set<Id>)
    returns (failed: bool, dist: map<Id, nat>, preds: map<Id, Id>, nodes: map<Id, P>,
             ghost link: map<Id, Hop<Id, P>>, ghost rank: map<Id, Rank>, ghost clock: nat,
             ghost settled: seq<Entry<Id>>, ghost floor: nat)
    requires unseen > 0 && start in universe && Closed(expand, universe)
    ensures Consistent(expand, unseen, start, dist, preds, nodes, link) && nodes[start] == startRec
    ensures RankInv(dist, preds, rank, clock)
    ensures forall e :: e in settled ==> e.node != end
    ensures minFirst ==> SettledInv(dist, settled, floor) && CostsSorted(settled) && Tight(dist, preds, link, floor)
    ensures failed ==> EndsInAbort(expand, settled)
    ensures !failed ==> NoAbort(expand, settled)
    ensures start != end ==> |settled| > 0 && settled[0] == Entry(0, start)
    ensures start == end ==> settled == []
    ensures !failed ==> end in dist || AllRelaxed(expand, unseen, dist)
  {
    dist := map[start := 0];
    preds := map[];
    nodes := map[start := startRec];
    var heap: multiset<Entry<Id>> := multiset{Entry(0, start)};
    link := map[];
    rank := map[start := Rank(0, 0)];
    clock := 1;
    floor := 0;
    settled := [];
    failed := false;
    FrontierStart(expand, unseen, start);

    while heap != multiset{}
      invariant Consistent(expand, unseen, start, dist, preds, nodes, link) && nodes[start] == startRec
      invariant RankInv(dist, preds, rank, clock) && HeapInv(dist, heap)
      invariant forall e :: e in settled ==> e.node != end
      invariant minFirst ==> SettledInv(dist, settled, floor) && AboveFloor(heap, floor) && CostsSorted(settled)
      invariant minFirst ==> Tight(dist, preds, link, floor)
      invariant NoAbort(expand, settled)
      invariant settled == [] ==> heap == multiset{Entry(0, start)}
      invariant settled != [] ==> settled[0] == Entry(0, start)
      invariant start == end ==> settled == []
      invariant Frontier(expand, unseen, dist, heap)
      decreases Slots(dist, universe, unseen), |heap|
    {
      var popped, visit;
      dist, preds, nodes, heap, link, rank, clock, settled, floor, popped, visit :=
        Pop(expand, unseen, start, startRec, end, minFirst, universe, dist, preds, nodes, heap, link, rank, clock,
            settled, floor);
      if visit.AtEnd? {
        assert end in dist;
        break;
      }
      if visit.Failed? {
        failed := true;
        return;
      }
    }
    if end !in dist {
      FrontierEmpty(expand, unseen, dist, heap);
    }
  }

  /**
    `dijkstra`. `expand` gives a node's neighbours (or a skip or a panic),
    `unseen` is the default of the distance lookup (`i32::MAX`, `f64::MAX`),
    `startRec` is the record the node cache starts with. With `minFirst`
    every pop takes an entry of least cost (a coherent `Ord`); without it
    any entry may be popped. `universe` is a ghost list of every node a hop
    can reach, used only for the termination measure. `settled` is the ghost
    trace of the entries that were expanded. Whatever the popping order, a
    run that does not panic finds `end` whenever some hop walk from `start`
    to `end` weighs less than `unseen`.
  */
  method Dijkstra<Id(==,!new), P(!new)>(expand: Id -> Expansion<Id, P>, unseen: nat, start: Id, startRec: P, end: Id,
                                        minFirst: bool, ghost universe: set<Id>)
    returns (r: Run<seq<Id>>, dist: map<Id, nat>, preds: map<Id, Id>, nodes: map<Id, P>,
             ghost link: map<Id, Hop<Id, P>>, ghost settled: seq<Entry<Id>>)
    requires unseen > 0 && start in universe && Closed(expand, universe)
    ensures r.Done? ==> Consistent(expand, unseen, start, dist, preds, nodes, link)
    ensures r.Done? ==> (r.value != [] <==> end in dist)
    ensures r.Done? && r.value != [] ==> LinkPath(preds, start, end, r.value) && IsWalk(expand, r.value)
    ensures r.Done? && r.value != [] ==> LinkHops(expand, link, r.value) && Sum(LinkWeights(link, r.value)) <= dist[end]
    ensures minFirst && r.Done? && r.value != [] ==> Sum(LinkWeights(link, r.value)) == dist[end]
    ensures r.Done? ==> nodes[start] == startRec
    ensures forall e :: e in settled ==> e.node != end
    ensures r.Panicked? ==> EndsInAbort(expand, settled)
    ensures minFirst && r.Done? ==> Final(dist, settled)
    ensures r.Done? ==> NoAbort(expand, settled)
    ensures start != end ==> |settled| > 0 && settled[0] == Entry(0, start)
    ensures start == end ==> r == Done([start])
    ensures minFirst ==> CostsSorted(settled)
    ensures r.Done? && r.value == [] ==> AllRelaxed(expand, unseen, dist)
    ensures r.Done? ==> forall p, ws ::
                          WeighedWalk(expand, p, ws) && |p| > 0 && p[0] == start && p[|p| - 1] == end && Sum(ws) < unseen
                          ==> r.value != []
  {
    var failed;
    ghost var rank, clock, floor;
    failed, dist, preds, nodes, link, rank, clock, settled, floor := Explore(expand, unseen, start, startRec, end, minFirst, universe);
    if failed {
      r := Panicked;
      return;
    }
    if end in dist {
      ReachedPath(expand, unseen, start, end, dist, preds, nodes, link, rank, clock);
      var path := ReconstructPath(preds, start, end, rank);
      LinkWeightsBound(expand, unseen, start, dist, preds, nodes, link, floor, path);
      r := Done(path);
    } else {
      r := Done([]);
      forall p, ws | WeighedWalk(expand, p, ws) && |p| > 0 && p[0] == start && p[|p| - 1] == end && Sum(ws) < unseen
        ensures false
      {
        RelaxedReach(expand, unseen, dist, p, ws);
      }
    }
  }
}
