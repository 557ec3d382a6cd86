/**
  The `OSMHandler` of the import scripts (`osm_parser.py`, `setup_psql.py`,
  `test_setup_dynamodb.py`): osmium calls `node`, `way` and `relation`
  once per element of the file, and the handler builds a dictionary of
  nodes keyed by `str(id)` whose adjacency lists connect consecutive nodes
  of every way, plus the lists of ways and relations.
*/
module Osm {
  import opened Wrappers
  import opened Decimal

  datatype Tag = Tag(k: string, v: string)

  datatype Location = Location(lat: real, lon: real)

  /**
    The parts of an osmium element that the handler reads. A node's
    location is `None` when it is invalid: reading its `lat` or `lon` then
    raises.
  */
  datatype OsmNode = OsmNode(id: int, location: Option<Location>, tags: seq<Tag>)
  datatype OsmWay = OsmWay(id: int, refs: seq<int>, tags: seq<Tag>)
  datatype Member = Member(kind: char, ref: int, role: string)
  datatype OsmRelation = OsmRelation(id: int, members: seq<Member>, tags: seq<Tag>)

  /** The stored dictionaries. */
  datatype NodeItem = NodeItem(id: string, latitude: real, longitude: real, tags: map<string, string>,
                               adjacency: seq<string>)
  datatype WayItem = WayItem(id: string, nodes: seq<string>, tags: map<string, string>)
  datatype RelationItem = RelationItem(id: string, members: seq<Member>, tags: map<string, string>)

  /** `{tag.k: tag.v for tag in tags}`: a later tag with the same key wins. */
  function TagMap(tags: seq<Tag>): map<string, string> {
    if tags == [] then map[] else TagMap(tags[..|tags| - 1])[tags[|tags| - 1].k := tags[|tags| - 1].v]
  }

  /** `[str(n.ref) for n in w.nodes]`. */
  function RefStrings(refs: seq<int>): seq<string> {
    seq(|refs|, i requires 0 <= i < |refs| => Show(refs[i]))
  }

  /** What the way adds for its `i`-th ref: the previous ref, if any, then the next one, if any. */
  function Neighbours(refs: seq<string>, i: int): seq<string>
    requires 0 <= i < |refs|
  {
    (if i > 0 then [refs[i - 1]] else []) + (if i < |refs| - 1 then [refs[i + 1]] else [])
  }

  /** Append `extra` to the adjacency list of `v`, when `v` is a stored node. */
  function AppendAdjacency(nodes: map<string, NodeItem>, v: string, extra: seq<string>)
    : (r: map<string, NodeItem>)
    ensures r.Keys == nodes.Keys
  {
    if v in nodes then nodes[v := nodes[v].(adjacency := nodes[v].adjacency + extra)] else nodes
  }

  /** The node dictionary once `way` has handled its first `k` refs. */
  function LinkWay(nodes: map<string, NodeItem>, refs: seq<string>, k: nat): (r: map<string, NodeItem>)
    requires k <= |refs|
    ensures r.Keys == nodes.Keys
  {
    if k == 0 then nodes else AppendAdjacency(LinkWay(nodes, refs, k - 1), refs[k - 1], Neighbours(refs, k - 1))
  }

  /** What the first `k` refs of a way add to `v`'s list: the neighbours of each occurrence of `v`, in order. */
  function Added(refs: seq<string>, v: string, k: nat): seq<string>
    requires k <= |refs|
  {
    if k == 0 then [] else Added(refs, v, k - 1) + (if refs[k - 1] == v then Neighbours(refs, k - 1) else [])
  }

  /**
    A way only appends: the set of node keys stays the same (`LinkWay`'s
    own contract), so refs that are not stored nodes gain no entry; every
    other field of every node stays the same; and each adjacency list is
    the old one followed by what the way adds to it, neighbours whether or
    not they are stored nodes themselves.
  */
  lemma {:induction false} LinkWayAppends(nodes: map<string, NodeItem>, refs: seq<string>, k: nat)
    requires k <= |refs|
    ensures forall v :: v in nodes ==>
              LinkWay(nodes, refs, k)[v] == nodes[v].(adjacency := nodes[v].adjacency + Added(refs, v, k))
  {
    if k > 0 {
      LinkWayAppends(nodes, refs, k - 1);
      forall v | v in nodes
        ensures LinkWay(nodes, refs, k)[v] == nodes[v].(adjacency := nodes[v].adjacency + Added(refs, v, k))
      {
        if refs[k - 1] == v {
          assert nodes[v].adjacency + Added(refs, v, k) ==
                 nodes[v].adjacency + Added(refs, v, k - 1) + Neighbours(refs, k - 1);
        } else {
          assert Added(refs, v, k) == Added(refs, v, k - 1);
        }
      }
    }
  }

  /** Each occurrence of `v` among the first `k` refs contributes its neighbours. */
  lemma {:induction false} AddedHasNeighbours(refs: seq<string>, v: string, i: nat, k: nat, x: string)
    requires i < k <= |refs| && refs[i] == v && x in Neighbours(refs, i)
    ensures x in Added(refs, v, k)
  {
    if i < k - 1 {
      AddedHasNeighbours(refs, v, i, k - 1, x);
    }
  }

  /** Consecutive refs that are both stored nodes list each other once the way is handled. */
  lemma MutualAdjacency(nodes: map<string, NodeItem>, refs: seq<string>, i: nat)
    requires i + 1 < |refs| && refs[i] in nodes && refs[i + 1] in nodes
    ensures refs[i + 1] in LinkWay(nodes, refs, |refs|)[refs[i]].adjacency
    ensures refs[i] in LinkWay(nodes, refs, |refs|)[refs[i + 1]].adjacency
  {
    LinkWayAppends(nodes, refs, |refs|);
    AddedHasNeighbours(refs, refs[i], i, |refs|, refs[i + 1]);
    AddedHasNeighbours(refs, refs[i + 1], i + 1, |refs|, refs[i]);
  }

  /** A ref that occurs once in the way gains exactly its previous and next refs, in that order. */
  lemma {:induction false} AddedOnce(refs: seq<string>, i: nat, k: nat)
    requires i < |refs| && k <= |refs|
    requires forall j :: 0 <= j < |refs| && j != i ==> refs[j] != refs[i]
    ensures Added(refs, refs[i], k) == if i < k then Neighbours(refs, i) else []
  {
    if k > 0 {
      AddedOnce(refs, i, k - 1);
      if k - 1 == i {
        assert Added(refs, refs[i], k - 1) == [];
      }
    }
  }

  class OsmHandler {
    var nodes: map<string, NodeItem>
    var ways: seq<WayItem>
    var relations: seq<RelationItem>

    constructor()
      ensures nodes == map[] && ways == [] && relations == []
    {
      nodes := map[];
      ways := [];
      relations := [];
    }

    /**
      `node`: store the node under `str(id)` with an empty adjacency list,
      replacing any earlier entry. A node with an invalid location raises
      while its entry is built; the handler catches the error and stores
      nothing.
    */
    method Node(n: OsmNode)
      modifies this
      ensures n.location.None? ==> nodes == old(nodes)
      ensures n.location.Some? ==>
                nodes == old(nodes)[Show(n.id) := NodeItem(Show(n.id), n.location.value.lat, n.location.value.lon,
                                                             TagMap(n.tags), [])]
      ensures ways == old(ways) && relations == old(relations)
    {
      match n.location
      case None =>
      case Some(loc) =>
        nodes := nodes[Show(n.id) := NodeItem(Show(n.id), loc.lat, loc.lon, TagMap(n.tags), [])];
    }

    /**
      `way`: for each ref that is a stored node, append the previous ref
      and then the next one to its adjacency list; then record the way
      with its refs in order.
    */
    method Way(w: OsmWay)
      modifies this
      ensures nodes == LinkWay(old(nodes), RefStrings(w.refs), |w.refs|)
      ensures ways == old(ways) + [WayItem(Show(w.id), RefStrings(w.refs), TagMap(w.tags))]
      ensures relations == old(relations)
    {
      var refs := RefStrings(w.refs);
      for i := 0 to |refs|
        invariant nodes == LinkWay(old(nodes), refs, i)
        invariant ways == old(ways) && relations == old(relations)
      {
        var ref := refs[i];
        if ref in nodes {
          ghost var before := nodes[ref].adjacency;
          if i > 0 {
            nodes := nodes[ref := nodes[ref].(adjacency := nodes[ref].adjacency + [refs[i - 1]])];
          }
          if i < |refs| - 1 {
            nodes := nodes[ref := nodes[ref].(adjacency := nodes[ref].adjacency + [refs[i + 1]])];
          }
          assert nodes[ref].adjacency == before + Neighbours(refs, i);
        }
      }
      ways := ways + [WayItem(Show(w.id), refs, TagMap(w.tags))];
    }

    /** `relation`: record the relation with its members in order. */
    method Relation(r: OsmRelation)
      modifies this
      ensures relations == old(relations) + [RelationItem(Show(r.id), r.members, TagMap(r.tags))]
      ensures nodes == old(nodes) && ways == old(ways)
    {
      relations := relations + [RelationItem(Show(r.id), r.members, TagMap(r.tags))];
    }
  }
}
