/**
  The precomputed routing table (src/routing_table.cpp): one binary search per key gives the same
  preference list as walking the ring, while the nodes can be numbered in 16 bits.
 */
module RoutingTables {
  import opened Rings
  import opened RingWalks
  import opened ConsistentHash

  const INDEX_LIMIT := 65536  // node indices are stored in 16 bits

  // ---------- what every ring reachable by adds and removes satisfies ----------

  /** Positions owned under one id all point at the same node, collisions or not. */
  ghost predicate Coherent(at: Placement, r: Ring) {
    forall p | p in r.points ::
      p in at(r.points[p].id) && r.points[p].id in r.nodes && r.points[p] == r.nodes[r.points[p].id]
  }

  lemma {:induction false} ReplayCoherent(at: Placement, changes: seq<Change>)
    ensures Coherent(at, Replay(at, changes))
    decreases |changes|
  {
    if changes != [] {
      var n := |changes| - 1;
      ReplayCoherent(at, changes[..n]);
      var r := Replay(at, changes[..n]);
      assert Replay(at, changes) == Apply(at, r, changes[n]);
    }
  }

  ghost predicate OneNodePerId(points: map<nat, CacheNode>) {
    forall p, q | p in points && q in points && points[p].id == points[q].id :: points[p] == points[q]
  }

  // ---------- indices instead of nodes ----------

  /** Indices at their first appearance. */
  function FirstIndices(w: seq<nat>): seq<nat> {
    if w == [] then []
    else
      var f := FirstIndices(w[..|w| - 1]);
      if w[|w| - 1] in f then f else f + [w[|w| - 1]]
  }

  function Nodes(nodes: seq<CacheNode>, idx: seq<nat>): seq<CacheNode>
    requires forall i | 0 <= i < |idx| :: idx[i] < |nodes|
  {
    seq(|idx|, i requires 0 <= i < |idx| => nodes[idx[i]])
  }

  /** Collecting distinct indices is collecting distinct nodes, when indices and ids correspond. */
  lemma {:induction false} FirstIndicesAreFirsts(nodes: seq<CacheNode>, w: seq<nat>)
    requires DistinctIds(nodes) && forall i | 0 <= i < |w| :: w[i] < |nodes|
    ensures forall i | 0 <= i < |FirstIndices(w)| :: FirstIndices(w)[i] < |nodes|
    ensures Nodes(nodes, FirstIndices(w)) == Firsts(Nodes(nodes, w))
    decreases |w|
  {
    if w != [] {
      var n := |w| - 1;
      FirstIndicesAreFirsts(nodes, w[..n]);
      var f := FirstIndices(w[..n]);
      assert Nodes(nodes, w) == Nodes(nodes, w[..n]) + [nodes[w[n]]];
      FirstsSnoc(Nodes(nodes, w[..n]), nodes[w[n]]);
      assert HasId(Nodes(nodes, f), nodes[w[n]].id) <==> w[n] in f by {
        if w[n] in f {
          var i :| 0 <= i < |f| && f[i] == w[n];
          assert Nodes(nodes, f)[i].id == nodes[w[n]].id;
        }
        if HasId(Nodes(nodes, f), nodes[w[n]].id) {
          var i :| 0 <= i < |f| && Nodes(nodes, f)[i].id == nodes[w[n]].id;
          assert f[i] == w[n];
        }
      }
    }
  }

  lemma {:induction false} FirstIndicesGrow(w: seq<nat>, n: nat)
    requires n <= |w|
    ensures FirstIndices(w[..n]) <= FirstIndices(w)
    decreases |w| - n
  {
    if n < |w| {
      FirstIndicesGrow(w, n + 1);
      assert w[..n + 1][..n] == w[..n];
    } else {
      assert w[..n] == w;
    }
  }

  lemma {:induction false} IndicesInRange(w: seq<nat>, bound: nat)
    requires forall i | 0 <= i < |w| :: w[i] < bound
    ensures forall i | 0 <= i < |FirstIndices(w)| :: FirstIndices(w)[i] < bound
    decreases |w|
  {
    if w != [] {
      IndicesInRange(w[..|w| - 1], bound);
    }
  }

  function TakeIndices(w: seq<nat>, n: nat): seq<nat> {
    if |w| <= n then w else w[..n]
  }

  /** The owners met from point p on, once around. */
  function Around(owner: seq<nat>, p: nat): seq<nat>
    requires p < |owner|
  {
    owner[p..] + owner[..p]
  }

  /** The inner loop of the constructor. */
  method CollectReplicas(owner: seq<nat>, p: nat, n: nat) returns (list: seq<nat>)
    requires p < |owner|
    ensures list == TakeIndices(FirstIndices(Around(owner, p)), n)
  {
    list := [];
    ghost var w := Around(owner, p);
    var step := 0;
    assert w[..0] == [];
    while step < |owner| && |list| < n
      invariant 0 <= step <= |owner| && |list| <= n
      invariant list == FirstIndices(w[..step])
    {
      var candidate := owner[(p + step) % |owner|];
      AroundIndex(owner, p, step);
      assert w[..step + 1][..step] == w[..step];
      if candidate !in list {
        list := list + [candidate];
      }
      step := step + 1;
    }
    FirstIndicesGrow(w, step);
    assert step == |owner| ==> w[..step] == w;
  }

  lemma AroundIndex(owner: seq<nat>, p: nat, step: nat)
    requires p < |owner| && step < |owner|
    ensures Around(owner, p)[step] == owner[(p + step) % |owner|]
  {
    if p + step >= |owner| {
      assert (p + step) % |owner| == p + step - |owner|;
    }
  }

  /** indexOf and nodes are inverse to each other. */
  ghost predicate Indexed(indexOf: map<string, nat>, nodes: seq<CacheNode>) {
    && (forall id | id in indexOf :: indexOf[id] < |nodes| && nodes[indexOf[id]].id == id)
    && (forall i | 0 <= i < |nodes| :: nodes[i].id in indexOf)
  }

  ghost predicate OwnersIndexed(w: seq<CacheNode>, nodes: seq<CacheNode>, owner: seq<nat>) {
    |owner| <= |w| && forall q | 0 <= q < |owner| :: owner[q] < |nodes| && nodes[owner[q]].id == w[q].id
  }

  lemma IndexGrows(indexOf: map<string, nat>, nodes: seq<CacheNode>, node: CacheNode)
    requires Indexed(indexOf, nodes) && node.id !in indexOf
    ensures !HasId(nodes, node.id) && Indexed(indexOf[node.id := |nodes|], nodes + [node])
  {
  }

  lemma OwnersGrow(w: seq<CacheNode>, nodes: seq<CacheNode>, owner: seq<nat>, nodes': seq<CacheNode>, k: nat)
    requires OwnersIndexed(w, nodes, owner) && nodes <= nodes' && |owner| < |w| && k < |nodes'| &&
             nodes'[k].id == w[|owner|].id
    ensures OwnersIndexed(w, nodes', owner + [k])
  {
  }

  /** What is left of an index in 16 bits. */
  function Wrap(owner: seq<nat>): (r: seq<nat>)
    ensures |r| == |owner|
  {
    seq(|owner|, i requires 0 <= i < |owner| => owner[i] % INDEX_LIMIT)
  }

  lemma WrapGrows(owner: seq<nat>, k: nat)
    ensures Wrap(owner + [k]) == Wrap(owner) + [k % INDEX_LIMIT]
  {
  }

  /** The stored numbers are the numbers, cut to 16 bits. */
  ghost predicate Wrapped(stored: map<string, nat>, indexOf: map<string, nat>) {
    stored.Keys == indexOf.Keys && forall id | id in indexOf :: stored[id] == indexOf[id] % INDEX_LIMIT
  }

  method IndexOne(stored: map<string, nat>, ghost indexOf: map<string, nat>, nodes: seq<CacheNode>, node: CacheNode)
    returns (stored': map<string, nat>, ghost indexOf': map<string, nat>, nodes': seq<CacheNode>)
    requires Indexed(indexOf, nodes) && Wrapped(stored, indexOf)
    ensures Indexed(indexOf', nodes') && Wrapped(stored', indexOf') && node.id in indexOf'
    ensures nodes' == if HasId(nodes, node.id) then nodes else nodes + [node]
  {
    stored', indexOf', nodes' := stored, indexOf, nodes;
    if node.id in stored {
      assert nodes[indexOf[node.id]].id == node.id;
      return;
    }
    IndexGrows(indexOf, nodes, node);
    stored' := stored[node.id := |nodes| % INDEX_LIMIT];
    indexOf' := indexOf[node.id := |nodes|];
    nodes' := nodes + [node];
  }

  /** The first loop of the constructor: nodes in order of first appearance, and owners by stored index. */
  method IndexNodes(ring: map<nat, CacheNode>, ks: seq<nat>)
    returns (nodes: seq<CacheNode>, stored: seq<nat>, ghost owner: seq<nat>)
    requires forall k | k in ks :: k in ring
    ensures nodes == Firsts(Owners(ring, ks)) && |owner| == |ks| && OwnersIndexed(Owners(ring, ks), nodes, owner)
    ensures stored == Wrap(owner)
  {
    nodes, stored, owner := [], [], [];
    var numbers: map<string, nat> := map[];
    ghost var indexOf: map<string, nat> := map[];
    ghost var w := Owners(ring, ks);
    var p := 0;
    assert w[..0] == [];
    while p < |ks|
      invariant 0 <= p <= |ks| && |owner| == p && nodes == Firsts(w[..p])
      invariant Indexed(indexOf, nodes) && Wrapped(numbers, indexOf)
      invariant OwnersIndexed(w, nodes, owner) && stored == Wrap(owner)
    {
      var node := ring[ks[p]];
      assert w[p] == node;
      NextFirst(w, p);
      ghost var before := nodes;
      numbers, indexOf, nodes := IndexOne(numbers, indexOf, nodes, node);
      OwnersGrow(w, before, owner, nodes, indexOf[node.id]);
      WrapGrows(owner, indexOf[node.id]);
      stored := stored + [numbers[node.id]];
      owner := owner + [indexOf[node.id]];
      p := p + 1;
    }
    assert w[..p] == w;
  }

  lemma NextFirst(w: seq<CacheNode>, p: nat)
    requires p < |w|
    ensures Firsts(w[..p + 1]) == if HasId(Firsts(w[..p]), w[p].id) then Firsts(w[..p]) else Firsts(w[..p]) + [w[p]]
  {
    assert w[..p + 1] == w[..p] + [w[p]];
    FirstsSnoc(w[..p], w[p]);
  }

  // ---------- how many nodes own a point ----------

  function IdSet(w: seq<CacheNode>): set<string> {
    set i | 0 <= i < |w| :: w[i].id
  }

  function OwnerIds(points: map<nat, CacheNode>): set<string> {
    set p | p in points :: points[p].id
  }

  lemma IdSetSnoc(v: seq<CacheNode>, n: CacheNode)
    ensures IdSet(v + [n]) == IdSet(v) + {n.id}
  {
    var w := v + [n];
    forall id | id in IdSet(v) + {n.id} ensures id in IdSet(w) {
      if id == n.id {
        assert w[|v|].id == id;
      } else {
        var i :| 0 <= i < |v| && v[i].id == id;
        assert w[i].id == id;
      }
    }
  }

  lemma FirstsHaveIds(v: seq<CacheNode>, id: string)
    ensures HasId(Firsts(v), id) <==> id in IdSet(v)
  {
    FirstsDistinct(v);
    if HasId(Firsts(v), id) {
      var i :| 0 <= i < |Firsts(v)| && Firsts(v)[i].id == id;
      assert Firsts(v)[i] in v;
    }
    if id in IdSet(v) {
      var i :| 0 <= i < |v| && v[i].id == id;
      assert v[i] in v;
    }
  }

  lemma {:induction false} FirstsSize(w: seq<CacheNode>)
    ensures |Firsts(w)| == |IdSet(w)|
    decreases |w|
  {
    if w != [] {
      var v, n := w[..|w| - 1], w[|w| - 1];
      assert w == v + [n];
      FirstsSize(v);
      FirstsSnoc(v, n);
      IdSetSnoc(v, n);
      FirstsHaveIds(v, n.id);
    }
  }

  lemma OwnersIds(points: map<nat, CacheNode>, ks: seq<nat>)
    requires forall x :: x in ks <==> x in points
    ensures IdSet(Owners(points, ks)) == OwnerIds(points)
  {
    var w := Owners(points, ks);
    forall id | id in OwnerIds(points) ensures id in IdSet(w) {
      var p :| p in points && points[p].id == id;
      var i :| 0 <= i < |ks| && ks[i] == p;
      assert w[i].id == id;
    }
  }

  lemma RotationElements(ks: seq<nat>, p: nat)
    requires p <= |ks|
    ensures forall x :: x in ks[p..] + ks[..p] <==> x in ks
  {
    assert ks == ks[..p] + ks[p..];
  }

  // ---------- each precomputed list is the walk from its point ----------

  /** What the walk finds from the p-th position on. */
  function WalkList(ring: map<nat, CacheNode>, ks: seq<nat>, factor: nat, p: nat): seq<CacheNode>
    requires p <= |ks| && forall k | k in ks :: k in ring
  {
    RotationElements(ks, p);
    Take(Firsts(Owners(ring, ks[p..] + ks[..p])), factor)
  }

  ghost predicate ListOk(ring: map<nat, CacheNode>, ks: seq<nat>, nodes: seq<CacheNode>, list: seq<nat>,
                         factor: nat, p: nat)
    requires p <= |ks| && forall k | k in ks :: k in ring
  {
    (forall i | 0 <= i < |list| :: list[i] < |nodes|) && Nodes(nodes, list) == WalkList(ring, ks, factor, p)
  }

  ghost predicate RowOk(ring: map<nat, CacheNode>, ks: seq<nat>, nodes: seq<CacheNode>, list: seq<nat>, member: bool,
                        factor: nat, local: string, p: nat)
    requires p <= |ks| && forall k | k in ks :: k in ring
  {
    ListOk(ring, ks, nodes, list, factor, p) && (member <==> HasId(WalkList(ring, ks, factor, p), local))
  }

  lemma OwnerNode(ring: map<nat, CacheNode>, ks: seq<nat>, nodes: seq<CacheNode>, owner: seq<nat>, q: nat)
    requires (forall k | k in ks :: k in ring) && OneNodePerId(ring) && |owner| == |ks| && q < |ks|
    requires nodes == Firsts(Owners(ring, ks)) && OwnersIndexed(Owners(ring, ks), nodes, owner)
    ensures owner[q] < |nodes| && nodes[owner[q]] == ring[ks[q]]
  {
    FirstsDistinct(Owners(ring, ks));
    assert nodes[owner[q]] in Owners(ring, ks);
    var i :| 0 <= i < |ks| && Owners(ring, ks)[i] == nodes[owner[q]];
    assert ks[i] in ring && ks[q] in ring;
  }

  lemma SameOwners(ring: map<nat, CacheNode>, ks: seq<nat>, nodes: seq<CacheNode>, owner: seq<nat>, p: nat)
    requires (forall k | k in ks :: k in ring) && OneNodePerId(ring) && |owner| == |ks| && p < |ks|
    requires nodes == Firsts(Owners(ring, ks))
    requires OwnersIndexed(Owners(ring, ks), nodes, owner)
    ensures forall i | 0 <= i < |Around(owner, p)| :: Around(owner, p)[i] < |nodes|
    ensures forall k | k in ks[p..] + ks[..p] :: k in ring
    ensures Nodes(nodes, Around(owner, p)) == Owners(ring, ks[p..] + ks[..p])
  {
    RotationElements(ks, p);
    forall q | 0 <= q < |ks| ensures owner[q] < |nodes| && nodes[owner[q]] == ring[ks[q]] {
      OwnerNode(ring, ks, nodes, owner, q);
    }
  }

  lemma NodesOfTake(nodes: seq<CacheNode>, f: seq<nat>, n: nat)
    requires forall i | 0 <= i < |f| :: f[i] < |nodes|
    ensures Nodes(nodes, TakeIndices(f, n)) == Take(Nodes(nodes, f), n)
  {
  }

  /** Collecting indices around the ring is collecting owners. */
  lemma CollectedNodes(ring: map<nat, CacheNode>, ks: seq<nat>, nodes: seq<CacheNode>, owner: seq<nat>, p: nat)
    requires (forall k | k in ks :: k in ring) && OneNodePerId(ring) && |owner| == |ks| && p < |ks|
    requires nodes == Firsts(Owners(ring, ks)) && OwnersIndexed(Owners(ring, ks), nodes, owner)
    ensures forall i | 0 <= i < |FirstIndices(Around(owner, p))| :: FirstIndices(Around(owner, p))[i] < |nodes|
    ensures forall k | k in ks[p..] + ks[..p] :: k in ring
    ensures Nodes(nodes, FirstIndices(Around(owner, p))) == Firsts(Owners(ring, ks[p..] + ks[..p]))
  {
    FirstsDistinct(Owners(ring, ks));
    SameOwners(ring, ks, nodes, owner, p);
    FirstIndicesAreFirsts(nodes, Around(owner, p));
  }

  lemma CollectedIsWalk(ring: map<nat, CacheNode>, ks: seq<nat>, nodes: seq<CacheNode>, owner: seq<nat>, p: nat,
                        factor: nat)
    requires Lists(ks, ring.Keys) && OneNodePerId(ring) && |owner| == |ks| && p < |ks|
    requires nodes == Firsts(Owners(ring, ks))
    requires OwnersIndexed(Owners(ring, ks), nodes, owner)
    ensures var n := if factor < |nodes| then factor else |nodes|;
            ListOk(ring, ks, nodes, TakeIndices(FirstIndices(Around(owner, p)), n), factor, p)
  {
    var n := if factor < |nodes| then factor else |nodes|;
    var f := FirstIndices(Around(owner, p));
    CollectedNodes(ring, ks, nodes, owner, p);
    NodesOfTake(nodes, f, n);
    SameCount(ring, ks, p);
    assert Take(Nodes(nodes, f), n) == Take(Nodes(nodes, f), factor);
  }

  lemma SameCount(ring: map<nat, CacheNode>, ks: seq<nat>, p: nat)
    requires Lists(ks, ring.Keys) && p <= |ks|
    ensures forall k | k in ks[p..] + ks[..p] :: k in ring
    ensures |Firsts(Owners(ring, ks[p..] + ks[..p]))| == |Firsts(Owners(ring, ks))|
  {
    var turned := ks[p..] + ks[..p];
    RotationElements(ks, p);
    OwnersIds(ring, ks);
    OwnersIds(ring, turned);
    FirstsSize(Owners(ring, ks));
    FirstsSize(Owners(ring, turned));
  }

  // ---------- when 16 bits are enough ----------

  /** The row stored for a point. */
  function Row(owner: seq<nat>, p: nat, n: nat): seq<nat>
    requires p < |owner|
  {
    TakeIndices(FirstIndices(Around(Wrap(owner), p)), n)
  }

  lemma RowInRange(owner: seq<nat>, p: nat, n: nat, bound: nat)
    requires p < |owner| && forall q | 0 <= q < |owner| :: owner[q] < bound
    ensures forall i | 0 <= i < |Row(owner, p, n)| :: Row(owner, p, n)[i] < bound
  {
    forall q | 0 <= q < |owner| ensures Wrap(owner)[q] < bound {
      assert owner[q] % INDEX_LIMIT <= owner[q];
    }
    IndicesInRange(Around(Wrap(owner), p), bound);
  }

  lemma NothingWraps(owner: seq<nat>)
    requires forall q | 0 <= q < |owner| :: owner[q] < INDEX_LIMIT
    ensures Wrap(owner) == owner
  {
  }

  lemma FirstIndicesHead(w: seq<nat>)
    requires w != []
    ensures FirstIndices(w) != [] && FirstIndices(w)[0] == w[0]
  {
    assert w[..1] == [w[0]] && w[..1][..0] == [];
    assert FirstIndices(w[..1]) == [w[0]];
    FirstIndicesGrow(w, 1);
  }

  lemma FirstsHead(w: seq<CacheNode>)
    requires w != []
    ensures Firsts(w) != [] && Firsts(w)[0] == w[0]
  {
    assert w[..1] == [w[0]] && w[..1][..0] == [];
    assert Firsts(w[..1]) == [w[0]];
    FirstsGrow(w, 1);
  }

  /** The 65537th node is stored under the number of the first, and its own points lead to that one. */
  lemma WrappedRowWrong(ring: map<nat, CacheNode>, ks: seq<nat>, nodes: seq<CacheNode>, owner: seq<nat>,
                        factor: nat, n: nat) returns (p: nat)
    requires (forall k | k in ks :: k in ring) && |owner| == |ks|
    requires nodes == Firsts(Owners(ring, ks)) && OwnersIndexed(Owners(ring, ks), nodes, owner)
    requires |nodes| > INDEX_LIMIT && factor > 0 && n > 0
    ensures p < |ks| && !ListOk(ring, ks, nodes, Row(owner, p, n), factor, p)
  {
    var w, x := Owners(ring, ks), nodes[INDEX_LIMIT];
    FirstsDistinct(w);
    assert x in nodes;
    p :| 0 <= p < |w| && w[p] == x;
    assert owner[p] == INDEX_LIMIT;
    RotationElements(ks, p);
    var turned := ks[p..] + ks[..p];
    FirstsHead(Owners(ring, turned));
    FirstIndicesHead(Around(Wrap(owner), p));
    assert Around(Wrap(owner), p)[0] == 0;
    assert WalkList(ring, ks, factor, p)[0] == x;
  }

  method ContainsLocal(nodes: seq<CacheNode>, list: seq<nat>, local: string) returns (member: bool)
    requires forall i | 0 <= i < |list| :: list[i] < |nodes|
    ensures member <==> HasId(Nodes(nodes, list), local)
  {
    member := false;
    for i := 0 to |list|
      invariant member <==> HasId(Nodes(nodes, list[..i]), local)
    {
      assert Nodes(nodes, list[..i + 1]) == Nodes(nodes, list[..i]) + [nodes[list[i]]];
      HasIdSnoc(Nodes(nodes, list[..i]), nodes[list[i]], local);
      if nodes[list[i]].id == local {
        member := true;
      }
    }
    assert list[..|list|] == list;
  }

  // ---------- the table ----------

  class RoutingTable {
    const hash: Hash
    const nodes: seq<CacheNode>
    const points: seq<nat>
    const replicas: seq<seq<nat>>
    const localMember: seq<bool>
    ghost const ring: map<nat, CacheNode>
    ghost const owner: seq<nat>  // each point's node, before its number is cut to 16 bits
    ghost const factor: nat
    ghost const localId: string

    /** min(replication factor, number of nodes). */
    ghost function Length(): nat {
      if factor < |nodes| then factor else |nodes|
    }

    ghost predicate Built() {
      && OneNodePerId(ring) && Lists(points, ring.Keys) && |replicas| == |localMember| == |points| == |owner|
      && nodes == Firsts(Owners(ring, points)) && OwnersIndexed(Owners(ring, points), nodes, owner)
      && forall p | 0 <= p < |points| :: RowBuilt(p)
    }

    ghost predicate RowBuilt(p: nat)
      requires p < |replicas| == |localMember| == |owner|
    {
      && replicas[p] == Row(owner, p, Length()) && (forall i | 0 <= i < |replicas[p]| :: replicas[p][i] < |nodes|)
      && (localMember[p] <==> HasId(Nodes(nodes, replicas[p]), localId))
    }

    /** Every row is the walk from its point. */
    ghost predicate Correct()
      requires Built()
    {
      forall p | 0 <= p < |points| :: RowOk(ring, points, nodes, replicas[p], localMember[p], factor, localId, p)
    }

    constructor (r: ConsistentHashRing, replicationFactor: nat, local: string)
      requires OneNodePerId(r.ring)
      ensures Built() && hash == r.hash && ring == r.ring && factor == replicationFactor && localId == local
    {
      var ks := KeysInOrder(r.ring.Keys);
      var ns, stored;
      ghost var exact;
      ns, stored, exact := IndexNodes(r.ring, ks);
      var n := if replicationFactor < |ns| then replicationFactor else |ns|;
      forall p | 0 <= p < |ks| ensures forall i | 0 <= i < |Row(exact, p, n)| :: Row(exact, p, n)[i] < |ns| {
        RowInRange(exact, p, n, |ns|);
      }
      forall q | 0 <= q < |stored| ensures stored[q] < |ns| {
        assert exact[q] % INDEX_LIMIT <= exact[q];
      }
      var lists, members := BuildLists(ns, stored, n, local);
      hash, nodes, points, replicas, localMember := r.hash, ns, ks, lists, members;
      ring, owner, factor, localId := r.ring, exact, replicationFactor, local;
    }

    lemma NodeCount()
      requires Built()
      ensures |nodes| == |OwnerIds(ring)|
    {
      OwnersIds(ring, points);
      FirstsSize(Owners(ring, points));
    }

    lemma CorrectRow(p: nat)
      requires Built() && p < |points| && (factor == 0 || |nodes| <= INDEX_LIMIT)
      ensures RowOk(ring, points, nodes, replicas[p], localMember[p], factor, localId, p)
    {
      assert RowBuilt(p);
      if factor == 0 {
        assert Nodes(nodes, replicas[p]) == [];
      } else {
        NothingWraps(owner);
        CollectedIsWalk(ring, points, nodes, owner, p, factor);
      }
    }

    /** The table is right at every point if and only if no node's number needs more than 16 bits. */
    lemma CorrectExactly()
      requires Built()
      ensures Correct() <==> factor == 0 || |OwnerIds(ring)| <= INDEX_LIMIT
    {
      NodeCount();
      if factor == 0 || |nodes| <= INDEX_LIMIT {
        forall p | 0 <= p < |points|
          ensures RowOk(ring, points, nodes, replicas[p], localMember[p], factor, localId, p)
        {
          CorrectRow(p);
        }
      } else {
        var p := WrappedRowWrong(ring, points, nodes, owner, factor, Length());
        assert RowBuilt(p);
        assert !RowOk(ring, points, nodes, replicas[p], localMember[p], factor, localId, p);
      }
    }

    /** The second loop of the constructor. */
    static method BuildLists(nodes: seq<CacheNode>, owner: seq<nat>, n: nat, local: string)
      returns (lists: seq<seq<nat>>, members: seq<bool>)
      requires forall q | 0 <= q < |owner| :: owner[q] < |nodes|
      ensures |lists| == |members| == |owner|
      ensures forall p | 0 <= p < |owner| ::
        && lists[p] == TakeIndices(FirstIndices(Around(owner, p)), n)
        && (forall i | 0 <= i < |lists[p]| :: lists[p][i] < |nodes|)
        && (members[p] <==> HasId(Nodes(nodes, lists[p]), local))
    {
      lists, members := [], [];
      for p := 0 to |owner|
        invariant |lists| == |members| == p
        invariant forall q | 0 <= q < p :: lists[q] == TakeIndices(FirstIndices(Around(owner, q)), n)
        invariant forall q | 0 <= q < p :: forall i | 0 <= i < |lists[q]| :: lists[q][i] < |nodes|
        invariant forall q | 0 <= q < p :: members[q] <==> HasId(Nodes(nodes, lists[q]), local)
      {
        var list := CollectReplicas(owner, p, n);
        IndicesInRange(Around(owner, p), |nodes|);
        var member := ContainsLocal(nodes, list, local);
        lists := lists + [list];
        members := members + [member];
      }
    }

    method PointFor(key: string) returns (p: nat)
      requires Built() && points != []
      ensures p < |points| && WalkList(ring, points, factor, p) == PreferenceList(ring, hash(key), factor)
    {
      var lb := LowerBound(points, hash(key));
      WalkIsRotation(points, ring.Keys, hash(key), lb);
      p := if lb == |points| then 0 else lb;
      assert lb == |points| ==> points[lb..] + points[..lb] == points == points[0..] + points[..0];
    }

    /** preference_list(point): the nodes a row names. */
    method RowNodes(p: nat) returns (list: seq<CacheNode>)
      requires Built() && p < |points|
      ensures RowBuilt(p) && list == Nodes(nodes, replicas[p])
    {
      assert RowBuilt(p);
      list := [];
      var i := 0;
      while i < |replicas[p]|
        invariant 0 <= i <= |replicas[p]|
        invariant list == Nodes(nodes, replicas[p])[..i]
      {
        list := list + [nodes[replicas[p][i]]];
        i := i + 1;
      }
    }

    /** The list for a key: exactly what locate_replicas finds on the ring, where the row is right. */
    method PreferenceListFor(key: string) returns (list: seq<CacheNode>)
      requires Built()
      ensures factor == 0 || |OwnerIds(ring)| <= INDEX_LIMIT ==> list == PreferenceList(ring, hash(key), factor)
    {
      if points == [] {
        ListsSize(points, ring.Keys);
        WalkMeetsAll(ring.Keys, hash(key));
        assert Owners(ring, Walk(ring.Keys, hash(key))) == [];
        return [];
      }
      var p := PointFor(key);
      NodeCount();
      if factor == 0 || |nodes| <= INDEX_LIMIT {
        CorrectRow(p);
      }
      list := RowNodes(p);
    }

    /** local_is_replica answers exactly whether this node is in the key's list. */
    method LocalIsReplica(key: string) returns (yes: bool)
      requires Built() && points != []
      ensures factor == 0 || |OwnerIds(ring)| <= INDEX_LIMIT ==>
                (yes <==> HasId(PreferenceList(ring, hash(key), factor), localId))
    {
      var p := PointFor(key);
      NodeCount();
      if factor == 0 || |nodes| <= INDEX_LIMIT {
        CorrectRow(p);
      }
      yes := localMember[p];
    }
  }

  /** A preference list has no duplicates and length min(factor, nodes owning a point). */
  lemma PreferenceListShape(points: map<nat, CacheNode>, h: nat, factor: nat)
    ensures DistinctIds(PreferenceList(points, h, factor))
    ensures |PreferenceList(points, h, factor)| == if factor < |OwnerIds(points)| then factor else |OwnerIds(points)|
  {
    var walk := Walk(points.Keys, h);
    WalkMeetsAll(points.Keys, h);
    FirstsDistinct(Owners(points, walk));
    FirstsSize(Owners(points, walk));
    OwnersIds(points, walk);
  }

  /** For every ring reachable by adds and removes the table can be built, below the index limit. */
  lemma ReachableRingIsTabulable(at: Placement, changes: seq<Change>)
    ensures OneNodePerId(Replay(at, changes).points)
    ensures OwnerIds(Replay(at, changes).points) <= Replay(at, changes).nodes.Keys
  {
    ReplayCoherent(at, changes);
  }
}
