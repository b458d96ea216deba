/** The ring as the source keeps it: an ordered map updated in place (src/consistent_hash.cpp). */
module ConsistentHash {
  import opened Options
  import opened Rings
  import opened RingWalks

  /** The smallest element, as the first key of an ordered map. */
  method MinOf(s: set<nat>) returns (m: nat)
    requires s != {}
    ensures m in s && forall x | x in s :: m <= x
  {
    m :| m in s;
    var rest := s - {m};
    while rest != {}
      invariant rest <= s && m in s
      invariant forall x | x in s && x !in rest :: m <= x
      decreases |rest|
    {
      var y :| y in rest;
      if y < m {
        m := y;
      }
      rest := rest - {y};
    }
  }

  /** The keys of an ordered map, in iteration order. */
  method KeysInOrder(s: set<nat>) returns (ks: seq<nat>)
    ensures Lists(ks, s)
  {
    ks := [];
    var rest := s;
    while rest != {}
      invariant rest <= s && Lists(ks, s - rest)
      invariant forall x, y | x in ks && y in rest :: x < y
      decreases |rest|
    {
      var m := MinOf(rest);
      IncreasingSnoc(ks, m);
      forall x ensures x in ks + [m] <==> x in s - (rest - {m}) {
      }
      ks := ks + [m];
      rest := rest - {m};
    }
  }

  /** std::map::lower_bound / std::lower_bound: the first key not below h. */
  method LowerBound(ks: seq<nat>, h: nat) returns (lb: nat)
    requires Increasing(ks)
    ensures lb <= |ks| && forall i | 0 <= i < |ks| :: ks[i] >= h <==> lb <= i
  {
    lb := 0;
    var hi := |ks|;
    while lb < hi
      invariant 0 <= lb <= hi <= |ks|
      invariant forall i | 0 <= i < lb :: ks[i] < h
      invariant forall i | hi <= i < |ks| :: ks[i] >= h
    {
      var mid := (lb + hi) / 2;
      if ks[mid] < h {
        lb := mid + 1;
      } else {
        hi := mid;
      }
    }
  }

  function Wrap(start: nat, j: nat, size: nat): (k: int)
    requires start <= size && j < size
    ensures 0 <= k < size
  {
    if start + j < size then start + j else start + j - size
  }

  /** The owners along the walk, by index into the ordered positions. */
  lemma WalkOwners(ring: map<nat, CacheNode>, ks: seq<nat>, h: nat, lb: nat)
    requires Lists(ks, ring.Keys) && lb <= |ks| && forall i | 0 <= i < |ks| :: ks[i] >= h <==> lb <= i
    ensures forall k | k in Walk(ring.Keys, h) :: k in ring
    ensures var w := Owners(ring, Walk(ring.Keys, h));
            |w| == |ks| && forall j: nat | j < |ks| :: w[j] == ring[ks[Wrap(lb, j, |ks|)]]
  {
    var walk := Walk(ring.Keys, h);
    WalkMeetsAll(ring.Keys, h);
    WalkIsRotation(ks, ring.Keys, h, lb);
    RotationIndex(ks, lb);
    OwnersByIndex(ring, ks, walk, lb);
  }

  lemma RotationIndex(ks: seq<nat>, lb: nat)
    requires lb <= |ks|
    ensures var walk := ks[lb..] + ks[..lb];
            |walk| == |ks| && forall j: nat | j < |ks| :: walk[j] == ks[Wrap(lb, j, |ks|)]
  {
  }

  lemma OwnersByIndex(ring: map<nat, CacheNode>, ks: seq<nat>, walk: seq<nat>, lb: nat)
    requires lb <= |ks| == |walk| && (forall k | k in walk :: k in ring) && (forall k | k in ks :: k in ring)
    requires forall j: nat | j < |ks| :: walk[j] == ks[Wrap(lb, j, |ks|)]
    ensures forall j: nat | j < |ks| :: Owners(ring, walk)[j] == ring[ks[Wrap(lb, j, |ks|)]]
  {
  }

  lemma FirstsHead(w: seq<CacheNode>)
    requires w != []
    ensures Firsts(w) != [] && Firsts(w)[0] == w[0]
  {
    FirstsGrow(w, 1);
    assert w[..1] == [w[0]];
    assert Firsts(w[..1]) == [w[0]];
  }

  class ConsistentHashRing {
    const numVnodes: nat
    const hash: Hash
    var physicalNodes: map<string, CacheNode>
    var ring: map<nat, CacheNode>

    function At(): Placement {
      id => Vnodes(hash, id, numVnodes)
    }

    function Value(): Ring
      reads this
    {
      Ring(ring, physicalNodes)
    }

    constructor (vnodes: nat, h: Hash)
      ensures numVnodes == vnodes && hash == h && Value() == EmptyRing
    {
      numVnodes, hash := vnodes, h;
      physicalNodes, ring := map[], map[];
    }

    method Add(node: CacheNode)
      modifies this
      ensures Value() == AddNode(At(), old(Value()), node)
    {
      physicalNodes := physicalNodes[node.id := node];
      var i := 0;
      while i < numVnodes
        invariant 0 <= i <= numVnodes
        invariant physicalNodes == old(physicalNodes)[node.id := node]
        invariant ring == old(ring) + Spread(Vnodes(hash, node.id, i), node)
      {
        ring := ring[VnodeHash(hash, node.id, i) := node];
        i := i + 1;
      }
    }

    method Remove(id: string)
      modifies this
      ensures Value() == RemoveNode(At(), old(Value()), id)
    {
      if id !in physicalNodes {
        return;
      }
      var i := 0;
      while i < numVnodes
        invariant 0 <= i <= numVnodes
        invariant physicalNodes == old(physicalNodes)
        invariant ring == old(ring) - Vnodes(hash, id, i)
      {
        ring := ring - {VnodeHash(hash, id, i)};
        i := i + 1;
      }
      physicalNodes := physicalNodes - {id};
    }

    /** The primary of a key is the head of its preference list. */
    method Locate(key: string) returns (r: Option<CacheNode>)
      ensures r == var l := PreferenceList(ring, hash(key), 1); if l == [] then None else Some(l[0])
    {
      var ks := KeysInOrder(ring.Keys);
      var it := LowerBound(ks, hash(key));
      WalkOwners(ring, ks, hash(key), it);
      ghost var w := Owners(ring, Walk(ring.Keys, hash(key)));
      if ks == [] {
        return None;
      }
      FirstsHead(w);
      if it == |ks| {
        it := 0;
      }
      r := Some(ring[ks[it]]);
    }

    method LocateReplicas(key: string, count: nat) returns (replicas: seq<CacheNode>)
      ensures replicas == PreferenceList(ring, hash(key), count)
    {
      var ks := KeysInOrder(ring.Keys);
      var it := LowerBound(ks, hash(key));
      WalkOwners(ring, ks, hash(key), it);
      replicas := WalkFrom(ring, ks, it, count, Owners(ring, Walk(ring.Keys, hash(key))));
    }

    /** The loop of locate_replicas over an ordered map's positions, starting at index `start`. */
    static method WalkFrom(ring: map<nat, CacheNode>, ks: seq<nat>, start: nat, count: nat, ghost w: seq<CacheNode>)
      returns (replicas: seq<CacheNode>)
      requires |w| == |ks| && start <= |ks| && forall k | k in ks :: k in ring
      requires forall j: nat | j < |ks| :: w[j] == ring[ks[Wrap(start, j, |ks|)]]
      ensures replicas == Take(Firsts(w), count)
    {
      replicas := [];
      var it := start;
      var steps := 0;
      assert w[..0] == [];
      while |replicas| < count && steps < |ks|
        invariant 0 <= steps <= |ks| && 0 <= it <= |ks|
        invariant it == start + steps || it == start + steps - |ks|
        invariant replicas == Firsts(w[..steps]) && |replicas| <= count
      {
        if it == |ks| {
          it := 0;
        }
        var node := ring[ks[it]];
        assert it == Wrap(start, steps, |ks|);
        assert w[..steps + 1] == w[..steps] + [node];
        FirstsSnoc(w[..steps], node);
        var seen := Seen(replicas, node.id);
        if !seen {
          replicas := replicas + [node];
        }
        it := it + 1;
        steps := steps + 1;
      }
      FirstsGrow(w, steps);
      assert steps == |ks| ==> w[..steps] == w;
    }

    static method Seen(ns: seq<CacheNode>, id: string) returns (seen: bool)
      ensures seen <==> HasId(ns, id)
    {
      for i := 0 to |ns|
        invariant forall j | 0 <= j < i :: ns[j].id != id
      {
        if ns[i].id == id {
          return true;
        }
      }
      seen := false;
    }
  }
}
