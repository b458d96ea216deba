/**
  Consistent hashing (src/consistent_hash.cpp).  The hash function is a parameter: nothing here
  depends on how keys and virtual nodes are spread, except where collisions are excluded.
 */
module Rings {
  import opened Decimals

  datatype CacheNode = CacheNode(id: string, host: string, port: nat)

  type Hash = string -> nat

  /** The ordered map from ring positions to nodes, and the nodes by id. */
  datatype Ring = Ring(points: map<nat, CacheNode>, nodes: map<string, CacheNode>)

  const EmptyRing := Ring(map[], map[])

  /** The ring positions of each node id. */
  type Placement = string -> set<nat>

  function VnodeHash(hash: Hash, id: string, i: nat): nat {
    hash(id + "#" + ToString(i))
  }

  /** The positions of the first n virtual nodes. */
  function Vnodes(hash: Hash, id: string, n: nat): set<nat> {
    if n == 0 then {} else Vnodes(hash, id, n - 1) + {VnodeHash(hash, id, n - 1)}
  }

  function Spread(positions: set<nat>, node: CacheNode): map<nat, CacheNode> {
    map p | p in positions :: node
  }

  function AddNode(at: Placement, r: Ring, node: CacheNode): Ring {
    Ring(r.points + Spread(at(node.id), node), r.nodes[node.id := node])
  }

  function RemoveNode(at: Placement, r: Ring, id: string): Ring {
    if id !in r.nodes then r
    else Ring(r.points - at(id), r.nodes - {id})
  }

  // ---------- histories ----------

  datatype Change = Add(node: CacheNode) | Remove(id: string)

  function Target(c: Change): string {
    if c.Add? then c.node.id else c.id
  }

  function Apply(at: Placement, r: Ring, c: Change): Ring {
    match c
    case Add(node) => AddNode(at, r, node)
    case Remove(id) => RemoveNode(at, r, id)
  }

  function Replay(at: Placement, changes: seq<Change>): Ring {
    if changes == [] then EmptyRing
    else Apply(at, Replay(at, changes[..|changes| - 1]), changes[|changes| - 1])
  }

  /** No two nodes share a ring position. */
  ghost predicate NoCollisions(at: Placement, ids: set<string>) {
    forall a, b | a in ids && b in ids && a != b :: at(a) !! at(b)
  }

  /** The ring holds exactly the positions of its nodes, each pointing at its node. */
  ghost predicate Exact(at: Placement, r: Ring) {
    && (forall p | p in r.points :: r.points[p].id in r.nodes && p in at(r.points[p].id))
    && (forall id, p | id in r.nodes && p in at(id) :: p in r.points && r.points[p] == r.nodes[id])
    && (forall id | id in r.nodes :: r.nodes[id].id == id)
  }

  lemma AddExact(at: Placement, r: Ring, node: CacheNode)
    requires Exact(at, r) && forall id | id in r.nodes && id != node.id :: at(node.id) !! at(id)
    ensures Exact(at, AddNode(at, r, node))
  {
    var r', mine := AddNode(at, r, node), at(node.id);
    forall p | p in r'.points ensures r'.points[p] == if p in mine then node else r.points[p] {
    }
    forall id, p | id in r'.nodes && p in at(id) ensures p in r'.points && r'.points[p] == r'.nodes[id] {
      if id != node.id {
        assert p in r.points && r.points[p] == r.nodes[id];
      }
    }
  }

  lemma RemoveExact(at: Placement, r: Ring, id: string)
    requires Exact(at, r) && forall other | other in r.nodes && other != id :: at(id) !! at(other)
    ensures Exact(at, RemoveNode(at, r, id))
  {
    var r' := RemoveNode(at, r, id);
    forall p | p in r'.points ensures r'.points[p] == r.points[p] && (id in r.nodes ==> p !in at(id)) {
    }
  }

  lemma ApplyExact(at: Placement, r: Ring, c: Change, ids: set<string>)
    requires Exact(at, r) && NoCollisions(at, ids) && r.nodes.Keys <= ids && Target(c) in ids
    ensures Exact(at, Apply(at, r, c)) && Apply(at, r, c).nodes.Keys <= ids
  {
    match c
    case Add(node) => AddExact(at, r, node);
    case Remove(id) => RemoveExact(at, r, id);
  }

  lemma {:induction false} ReplayExact(at: Placement, changes: seq<Change>, ids: set<string>)
    requires NoCollisions(at, ids) && forall i | 0 <= i < |changes| :: Target(changes[i]) in ids
    ensures Exact(at, Replay(at, changes)) && Replay(at, changes).nodes.Keys <= ids
    decreases |changes|
  {
    if changes != [] {
      var n := |changes| - 1;
      ReplayExact(at, changes[..n], ids);
      ApplyExact(at, Replay(at, changes[..n]), changes[n], ids);
    }
  }

  lemma ExactUnique(at: Placement, r: Ring, r': Ring)
    requires Exact(at, r) && Exact(at, r') && r.nodes == r'.nodes
    ensures r == r'
  {
    forall p ensures p in r.points <==> p in r'.points {
    }
    assert r.points == r'.points;
  }

  /** Without collisions the ring depends only on the members, not on how they came and went. */
  lemma RingDependsOnMembersOnly(at: Placement, changes: seq<Change>, changes': seq<Change>, ids: set<string>)
    requires NoCollisions(at, ids)
    requires forall i | 0 <= i < |changes| :: Target(changes[i]) in ids
    requires forall i | 0 <= i < |changes'| :: Target(changes'[i]) in ids
    requires Replay(at, changes).nodes == Replay(at, changes').nodes
    ensures Replay(at, changes) == Replay(at, changes')
  {
    ReplayExact(at, changes, ids);
    ReplayExact(at, changes', ids);
    ExactUnique(at, Replay(at, changes), Replay(at, changes'));
  }

  /** Removing a node just added restores the ring exactly when none of its positions was taken. */
  lemma RemoveUndoesAdd(at: Placement, r: Ring, node: CacheNode)
    requires node.id !in r.nodes
    ensures RemoveNode(at, AddNode(at, r, node), node.id) == r <==> at(node.id) !! r.points.Keys
  {
    var back := RemoveNode(at, AddNode(at, r, node), node.id);
    assert back.nodes == r.nodes;
    assert back.points == r.points - at(node.id);
    if p :| p in at(node.id) && p in r.points.Keys {
      assert p !in back.points;
    } else {
      assert back.points == r.points;
    }
  }

  /** Adding back a node just removed restores the ring exactly when all its positions were its own. */
  lemma AddUndoesRemove(at: Placement, r: Ring, id: string)
    requires id in r.nodes && r.nodes[id].id == id
    ensures AddNode(at, RemoveNode(at, r, id), r.nodes[id]) == r <==>
            forall p | p in at(id) :: p in r.points && r.points[p] == r.nodes[id]
  {
    var mine, node := at(id), r.nodes[id];
    var points := (r.points - mine) + Spread(mine, node);
    assert AddNode(at, RemoveNode(at, r, id), node).points == points;
    assert (r.nodes - {id})[id := node] == r.nodes;
    forall p | p in mine ensures p in points && points[p] == node {
    }
    if forall p | p in mine :: p in r.points && r.points[p] == node {
      forall p ensures (p in points <==> p in r.points) && (p in points ==> points[p] == r.points[p]) {
      }
      assert points == r.points;
    }
  }

  lemma SpreadApart(points: map<nat, CacheNode>, x: set<nat>, a: CacheNode, y: set<nat>, b: CacheNode)
    requires x !! y
    ensures points + Spread(x, a) + Spread(y, b) == points + Spread(y, b) + Spread(x, a)
  {
  }

  lemma SpreadMeets(points: map<nat, CacheNode>, x: set<nat>, a: CacheNode, y: set<nat>, b: CacheNode, p: nat)
    requires p in x && p in y && a != b
    ensures points + Spread(x, a) + Spread(y, b) != points + Spread(y, b) + Spread(x, a)
  {
    assert (points + Spread(x, a) + Spread(y, b))[p] == b;
    assert (points + Spread(y, b) + Spread(x, a))[p] == a;
  }

  /** Two nodes can be added in either order exactly when they share no position. */
  lemma AddOrderExactly(at: Placement, r: Ring, a: CacheNode, b: CacheNode)
    requires a.id != b.id
    ensures AddNode(at, AddNode(at, r, a), b) == AddNode(at, AddNode(at, r, b), a) <==> at(a.id) !! at(b.id)
  {
    assert r.nodes[a.id := a][b.id := b] == r.nodes[b.id := b][a.id := a];
    if p :| p in at(a.id) && p in at(b.id) {
      SpreadMeets(r.points, at(a.id), a, at(b.id), b, p);
    } else {
      SpreadApart(r.points, at(a.id), a, at(b.id), b);
    }
  }

  ghost predicate Over(changes: seq<Change>, ids: set<string>) {
    forall i | 0 <= i < |changes| :: Target(changes[i]) in ids
  }

  /** Any two histories of these nodes that end with the same members end with the same ring. */
  ghost predicate OnlyMembersMatter(at: Placement, ids: set<string>) {
    forall x, y | Over(x, ids) && Over(y, ids) && Replay(at, x).nodes == Replay(at, y).nodes ::
      Replay(at, x) == Replay(at, y)
  }

  lemma ReplayTwo(at: Placement, a: CacheNode, b: CacheNode)
    ensures Replay(at, [Add(a), Add(b)]) == AddNode(at, AddNode(at, EmptyRing, a), b)
  {
    assert [Add(a), Add(b)][..1] == [Add(a)] && [Add(a)][..0] == [];
    assert Replay(at, [Add(a)]) == AddNode(at, EmptyRing, a);
  }

  lemma SameNodes(at: Placement, a: CacheNode, b: CacheNode)
    requires a.id != b.id
    ensures AddNode(at, AddNode(at, EmptyRing, a), b).nodes == AddNode(at, AddNode(at, EmptyRing, b), a).nodes
  {
  }

  /** Adding them in one order and in the other. */
  lemma TwoOrders(at: Placement, a: CacheNode, b: CacheNode)
    requires a.id != b.id && !(at(a.id) !! at(b.id))
    ensures Replay(at, [Add(a), Add(b)]).nodes == Replay(at, [Add(b), Add(a)]).nodes
    ensures Replay(at, [Add(a), Add(b)]) != Replay(at, [Add(b), Add(a)])
  {
    ReplayTwo(at, a, b);
    ReplayTwo(at, b, a);
    AddOrderExactly(at, EmptyRing, a, b);
    SameNodes(at, a, b);
  }

  lemma TwoHistories(at: Placement, ids: set<string>, x: seq<Change>, y: seq<Change>)
    requires Over(x, ids) && Over(y, ids) && Replay(at, x).nodes == Replay(at, y).nodes
    requires Replay(at, x) != Replay(at, y)
    ensures !OnlyMembersMatter(at, ids)
  {
  }

  lemma CollisionMatters(at: Placement, ids: set<string>, a: CacheNode, b: CacheNode)
    requires a.id in ids && b.id in ids && a.id != b.id && !(at(a.id) !! at(b.id))
    ensures !OnlyMembersMatter(at, ids)
  {
    TwoOrders(at, a, b);
    TwoHistories(at, ids, [Add(a), Add(b)], [Add(b), Add(a)]);
  }

  /** The ring depends on its members only, over all histories, if and only if no two nodes share a position. */
  lemma MembersOnlyExactly(at: Placement, ids: set<string>)
    ensures OnlyMembersMatter(at, ids) <==> NoCollisions(at, ids)
  {
    if NoCollisions(at, ids) {
      forall x, y | Over(x, ids) && Over(y, ids) && Replay(at, x).nodes == Replay(at, y).nodes
        ensures Replay(at, x) == Replay(at, y)
      {
        RingDependsOnMembersOnly(at, x, y, ids);
      }
    } else {
      var i, j :| i in ids && j in ids && i != j && !(at(i) !! at(j));
      CollisionMatters(at, ids, CacheNode(i, "", 0), CacheNode(j, "", 0));
    }
  }
}
