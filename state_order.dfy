/**
  The heap entry `State { cost, node }` and its comparison traits. Rust's
  `BinaryHeap` is a max-heap, so the prototypes reverse the cost order to
  pop the cheapest entry first.
*/
module StateOrder {
  import opened Wrappers

  datatype Ordering = Less | Equal | Greater

  function Flip(o: Ordering): (r: Ordering)
    ensures (r == Less <==> o == Greater) && (r == Greater <==> o == Less) && (r == Equal <==> o == Equal)
  {
    match o
    case Less => Greater
    case Equal => Equal
    case Greater => Less
  }

  /** `i32::cmp`, the three-way comparison of the integer prototypes' costs. */
  function CompareInt(a: int, b: int): (o: Ordering)
    ensures (o == Less <==> a < b) && (o == Equal <==> a == b) && (o == Greater <==> a > b)
  {
    if a < b then Less else if a == b then Equal else Greater
  }

  /**
    `f64::partial_cmp` on non-NaN values, for the `f64` costs of the store
    variants: the same three-way comparison as `CompareInt`, written again
    because `int` and `real` have no common ordered type to share one.
  */
  function CompareReal(a: real, b: real): (o: Ordering)
    ensures (o == Less <==> a < b) && (o == Equal <==> a == b) && (o == Greater <==> a > b)
  {
    if a < b then Less else if a == b then Equal else Greater
  }

  // ---------------------------------------------------------------------------
  // v0, hello_world, v1: integer cost, consistent traits

  datatype State = State(cost: int, node: int)

  /** `other.cost.cmp(&self.cost)`: a cheaper state compares greater. */
  function Cmp(s: State, o: State): (r: Ordering)
    ensures r == Greater <==> s.cost < o.cost
    ensures r == Less <==> s.cost > o.cost
    ensures r == Equal <==> s.cost == o.cost
  {
    CompareInt(o.cost, s.cost)
  }

  /** `Some(self.cmp(other))`. */
  function PartialCmp(s: State, o: State): Option<Ordering> {
    Some(Cmp(s, o))
  }

  /** `self.cost == other.cost`: the node is not compared. */
  predicate Eq(s: State, o: State) {
    s.cost == o.cost
  }

  /** `partial_cmp` agrees with `cmp`, and `eq` holds exactly when `cmp` says `Equal`. */
  lemma TraitsConsistent(s: State, o: State)
    ensures PartialCmp(s, o) == Some(Cmp(s, o))
    ensures Eq(s, o) <==> Cmp(s, o) == Equal
  {
  }

  /** The `Ord` laws hold: antisymmetry and transitivity. */
  lemma CmpIsTotalOrder(a: State, b: State, c: State)
    ensures Cmp(a, b) == Flip(Cmp(b, a))
    ensures Cmp(a, b) != Less && Cmp(b, c) != Less ==> Cmp(a, c) != Less
  {
  }

  /**
    Equality by cost only: `eq` holds exactly when the costs agree, so two
    different states, at different nodes, are equal whenever their costs are.
  */
  lemma EqIgnoresNode(a: State, b: State)
    ensures Eq(a, b) <==> a.cost == b.cost
    ensures a.cost == b.cost && a.node != b.node ==> Eq(a, b) && a != b
  {
  }

  /** A witness that `eq` is not structural equality. */
  lemma EqNotStructural()
    ensures Eq(State(7, 1), State(7, 2)) && State(7, 1) != State(7, 2)
  {
  }

  /**
    The greatest state under `cmp` — what a max-heap pops — is exactly one of
    minimum cost.
  */
  lemma GreatestIsCheapest(q: seq<State>, m: State)
    requires m in q
    ensures (forall x :: x in q ==> Cmp(m, x) != Less) <==> (forall x :: x in q ==> m.cost <= x.cost)
  {
  }

  // ---------------------------------------------------------------------------
  // v2, v4, get-shortest-path: floating-point cost, inconsistent traits

  datatype GeoState = GeoState(cost: real, node: int)

  /** `other.cost.partial_cmp(&self.cost).unwrap_or(Equal)`: reversed. */
  function GeoCmp(s: GeoState, o: GeoState): (r: Ordering)
    ensures r == Greater <==> s.cost < o.cost
    ensures r == Less <==> s.cost > o.cost
  {
    CompareReal(o.cost, s.cost)
  }

  /** `self.cost.partial_cmp(&other.cost)`: NOT reversed. */
  function GeoPartialCmp(s: GeoState, o: GeoState): (r: Option<Ordering>)
    ensures r.Some? && (r.value == Greater <==> s.cost > o.cost) && (r.value == Less <==> s.cost < o.cost)
  {
    Some(CompareReal(s.cost, o.cost))
  }

  /**
    The two orderings agree only on equal costs: on every other pair they
    contradict each other, so `BinaryHeap` gets no coherent order and its
    pop order is unspecified.
  */
  lemma GeoTraitsDisagree(s: GeoState, o: GeoState)
    ensures GeoPartialCmp(s, o) == Some(GeoCmp(s, o)) <==> s.cost == o.cost
    ensures s.cost != o.cost ==> GeoPartialCmp(s, o) == Some(Flip(GeoCmp(s, o)))
  {
  }
}
