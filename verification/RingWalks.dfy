/**
  Walking the ring (ConsistentHashRing::locate, locate_replicas): the preference list of a key, and
  how it changes when a node joins or leaves.
 */
module RingWalks {
  import opened Rings

  // ---------- ordered sets of positions ----------

  predicate Increasing(ks: seq<nat>) {
    forall i, j | 0 <= i < j < |ks| :: ks[i] < ks[j]
  }

  ghost predicate Lists(ks: seq<nat>, s: set<nat>) {
    Increasing(ks) && forall x :: x in ks <==> x in s
  }

  lemma Smallest(s: set<nat>) returns (m: nat)
    requires s != {}
    ensures m in s && forall x | x in s :: m <= x
    decreases |s|
  {
    var any :| any in s;
    m := any;
    if s != {any} {
      var other := Smallest(s - {any});
      m := if other < any then other else any;
      assert forall x | x in s :: x == any || x in s - {any};
    } else {
      assert forall x | x in s :: x == any;
    }
  }

  lemma {:induction false} SortedExists(s: set<nat>)
    ensures exists ks :: Lists(ks, s)
    decreases |s|
  {
    if s == {} {
      assert Lists([], s);
    } else {
      var m := Smallest(s);
      SortedExists(s - {m});
      var rest :| Lists(rest, s - {m});
      var ks := [m] + rest;
      forall i, j | 0 <= i < j < |ks| ensures ks[i] < ks[j] {
        assert ks[j] == rest[j - 1] && rest[j - 1] in s - {m};
        if i > 0 {
          assert ks[i] == rest[i - 1];
        }
      }
      assert Lists(ks, s);
    }
  }

  lemma {:induction false} SortedUnique(a: seq<nat>, b: seq<nat>, s: set<nat>)
    requires Lists(a, s) && Lists(b, s)
    ensures a == b
    decreases |a|
  {
    ListsSize(a, s);
    ListsSize(b, s);
    if a != [] {
      assert a[0] in s && a[0] in b;
      assert b[0] in s && b[0] in a;
      assert a[0] == b[0];
      TailLists(a, s);
      TailLists(b, s);
      SortedUnique(a[1..], b[1..], s - {a[0]});
      assert a == [a[0]] + a[1..] && b == [b[0]] + b[1..];
    }
  }

  lemma TailLists(a: seq<nat>, s: set<nat>)
    requires Lists(a, s) && a != []
    ensures Lists(a[1..], s - {a[0]})
  {
    forall x ensures x in a[1..] <==> x in s - {a[0]} {
      if x in s && x != a[0] {
        assert x in a;
        var i :| 0 <= i < |a| && a[i] == x;
        assert a[1..][i - 1] == x;
      }
      if x in a[1..] {
        var i :| 0 <= i < |a[1..]| && a[1..][i] == x;
        assert a[i + 1] == x;
      }
    }
  }

  /** The elements of `s` in increasing order. */
  ghost function Sorted(s: set<nat>): (ks: seq<nat>)
    ensures Lists(ks, s)
  {
    SortedExists(s);
    var ks :| Lists(ks, s);
    ks
  }

  function AtOrAfter(s: set<nat>, h: nat): set<nat> {
    set x | x in s && x >= h
  }

  function Earlier(s: set<nat>, h: nat): set<nat> {
    set x | x in s && x < h
  }

  /** All positions in the order the walk from hash `h` meets them: upwards, then wrapped around. */
  ghost function Walk(s: set<nat>, h: nat): seq<nat> {
    Sorted(AtOrAfter(s, h)) + Sorted(Earlier(s, h))
  }

  lemma WalkMeetsAll(s: set<nat>, h: nat)
    ensures forall x :: x in Walk(s, h) <==> x in s
    ensures |Walk(s, h)| == |s|
  {
    forall x ensures x in Walk(s, h) <==> x in s {
      assert x in Sorted(AtOrAfter(s, h)) <==> x in AtOrAfter(s, h);
      assert x in Sorted(Earlier(s, h)) <==> x in Earlier(s, h);
    }
    ListsSize(Sorted(AtOrAfter(s, h)), AtOrAfter(s, h));
    ListsSize(Sorted(Earlier(s, h)), Earlier(s, h));
    assert AtOrAfter(s, h) + Earlier(s, h) == s;
  }

  lemma {:induction false} ListsSize(ks: seq<nat>, s: set<nat>)
    requires Lists(ks, s)
    ensures |ks| == |s|
    decreases |ks|
  {
    if ks == [] {
      assert s == {};
    } else {
      assert ks[0] in s;
      TailLists(ks, s);
      ListsSize(ks[1..], s - {ks[0]});
    }
  }

  /** The walk is the sorted positions, rotated to start at the first one not below `h`. */
  lemma WalkIsRotation(ks: seq<nat>, s: set<nat>, h: nat, lb: nat)
    requires Lists(ks, s) && lb <= |ks|
    requires forall i | 0 <= i < |ks| :: ks[i] >= h <==> lb <= i
    ensures Walk(s, h) == ks[lb..] + ks[..lb]
  {
    forall x ensures x in ks[lb..] <==> x in AtOrAfter(s, h) {
      if x in s && x >= h {
        var i :| 0 <= i < |ks| && ks[i] == x;
        assert ks[lb..][i - lb] == x;
      }
    }
    forall x ensures x in ks[..lb] <==> x in Earlier(s, h) {
      if x in s && x < h {
        var i :| 0 <= i < |ks| && ks[i] == x;
        assert ks[..lb][i] == x;
      }
    }
    SortedUnique(ks[lb..], Sorted(AtOrAfter(s, h)), AtOrAfter(s, h));
    SortedUnique(ks[..lb], Sorted(Earlier(s, h)), Earlier(s, h));
  }

  function Filter(ks: seq<nat>, keep: set<nat>): seq<nat> {
    if ks == [] then []
    else
      var rest := Filter(ks[..|ks| - 1], keep);
      if ks[|ks| - 1] in keep then rest + [ks[|ks| - 1]] else rest
  }

  lemma IncreasingSnoc(ks: seq<nat>, x: nat)
    requires Increasing(ks) && forall y | y in ks :: y < x
    ensures Increasing(ks + [x])
  {
    forall i, j | 0 <= i < j < |ks + [x]| ensures (ks + [x])[i] < (ks + [x])[j] {
      assert j == |ks| ==> ks[i] in ks;
    }
  }

  lemma {:induction false} FilterLists(ks: seq<nat>, s: set<nat>, keep: set<nat>)
    requires Lists(ks, s)
    ensures Lists(Filter(ks, keep), s * keep)
    decreases |ks|
  {
    if ks == [] {
      ListsSize(ks, s);
      assert s * keep == {};
    } else {
      var n := |ks| - 1;
      var init := ks[..n];
      forall x ensures x in init <==> x in s - {ks[n]} {
        if x in s && x != ks[n] {
          var i :| 0 <= i < |ks| && ks[i] == x;
          assert init[i] == x;
        }
      }
      assert ks[n] in s;
      FilterLists(init, s - {ks[n]}, keep);
      forall x | x in Filter(init, keep) ensures x < ks[n] {
        assert x in init;
      }
      IncreasingSnoc(Filter(init, keep), ks[n]);
      forall x ensures x in Filter(ks, keep) <==> x in s * keep {
        assert x in Filter(init, keep) <==> x in (s - {ks[n]}) * keep;
      }
    }
  }

  lemma {:induction false} FilterAppend(a: seq<nat>, b: seq<nat>, keep: set<nat>)
    ensures Filter(a + b, keep) == Filter(a, keep) + Filter(b, keep)
    decreases |b|
  {
    if b == [] {
      assert a + b == a;
    } else {
      var n := |b| - 1;
      assert (a + b)[..|a + b| - 1] == a + b[..n];
      FilterAppend(a, b[..n], keep);
    }
  }

  /** Positions of a larger set, restricted to a smaller one, are walked in the same order. */
  lemma WalkRestricts(s: set<nat>, big: set<nat>, h: nat)
    requires s <= big
    ensures Filter(Walk(big, h), s) == Walk(s, h)
  {
    FilterAppend(Sorted(AtOrAfter(big, h)), Sorted(Earlier(big, h)), s);
    FilterLists(Sorted(AtOrAfter(big, h)), AtOrAfter(big, h), s);
    FilterLists(Sorted(Earlier(big, h)), Earlier(big, h), s);
    assert AtOrAfter(big, h) * s == AtOrAfter(s, h);
    assert Earlier(big, h) * s == Earlier(s, h);
    SortedUnique(Filter(Sorted(AtOrAfter(big, h)), s), Sorted(AtOrAfter(s, h)), AtOrAfter(s, h));
    SortedUnique(Filter(Sorted(Earlier(big, h)), s), Sorted(Earlier(s, h)), Earlier(s, h));
  }

  // ---------- distinct nodes along a walk ----------

  predicate HasId(ns: seq<CacheNode>, id: string) {
    exists i | 0 <= i < |ns| :: ns[i].id == id
  }

  /** The nodes met, each at its first appearance. */
  function Firsts(w: seq<CacheNode>): seq<CacheNode> {
    if w == [] then []
    else
      var f := Firsts(w[..|w| - 1]);
      if HasId(f, w[|w| - 1].id) then f else f + [w[|w| - 1]]
  }

  predicate DistinctIds(ns: seq<CacheNode>) {
    forall i, j | 0 <= i < j < |ns| :: ns[i].id != ns[j].id
  }

  lemma {:induction false} FirstsDistinct(w: seq<CacheNode>)
    ensures DistinctIds(Firsts(w))
    ensures forall n | n in Firsts(w) :: n in w
    ensures forall n | n in w :: HasId(Firsts(w), n.id)
    decreases |w|
  {
    if w != [] {
      var k := |w| - 1;
      FirstsDistinct(w[..k]);
      var f := Firsts(w[..k]);
      assert w == w[..k] + [w[k]];
      forall n | n in w ensures HasId(Firsts(w), n.id) {
        if n in w[..k] {
          var i :| 0 <= i < |f| && f[i].id == n.id;
          assert Firsts(w)[i].id == n.id;
        } else if !HasId(f, n.id) {
          assert Firsts(w)[|f|].id == n.id;
        }
      }
    }
  }

  lemma {:induction false} FirstsGrow(w: seq<CacheNode>, n: nat)
    requires n <= |w|
    ensures Firsts(w[..n]) <= Firsts(w)
    decreases |w| - n
  {
    if n < |w| {
      FirstsGrow(w, n + 1);
      assert w[..n + 1][..n] == w[..n];
    } else {
      assert w[..n] == w;
    }
  }

  function Without(w: seq<CacheNode>, id: string): seq<CacheNode> {
    if w == [] then []
    else
      var rest := Without(w[..|w| - 1], id);
      if w[|w| - 1].id == id then rest else rest + [w[|w| - 1]]
  }

  lemma {:induction false} WithoutElements(w: seq<CacheNode>, id: string, other: string)
    requires id != other
    ensures HasId(Without(w, id), other) <==> HasId(w, other)
    decreases |w|
  {
    if w != [] {
      var k := |w| - 1;
      WithoutElements(w[..k], id, other);
      HasIdSnoc(w[..k], w[k], other);
      assert w == w[..k] + [w[k]];
      if w[k].id != id {
        HasIdSnoc(Without(w[..k], id), w[k], other);
      }
    }
  }

  lemma HasIdSnoc(ns: seq<CacheNode>, n: CacheNode, id: string)
    ensures HasId(ns + [n], id) <==> HasId(ns, id) || n.id == id
  {
    if HasId(ns, id) {
      var i :| 0 <= i < |ns| && ns[i].id == id;
      assert (ns + [n])[i].id == id;
    }
    if n.id == id {
      assert (ns + [n])[|ns|].id == id;
    }
  }

  lemma WithoutSnoc(w: seq<CacheNode>, n: CacheNode, id: string)
    ensures Without(w + [n], id) == if n.id == id then Without(w, id) else Without(w, id) + [n]
  {
    assert (w + [n])[..|w|] == w;
  }

  lemma FirstsSnoc(w: seq<CacheNode>, n: CacheNode)
    ensures Firsts(w + [n]) == if HasId(Firsts(w), n.id) then Firsts(w) else Firsts(w) + [n]
  {
    assert (w + [n])[..|w|] == w;
  }

  /** Leaving a node out before or after collecting first appearances is the same. */
  lemma {:induction false} FirstsWithout(w: seq<CacheNode>, id: string)
    ensures Without(Firsts(w), id) == Firsts(Without(w, id))
    decreases |w|
  {
    if w != [] {
      var v, n := w[..|w| - 1], w[|w| - 1];
      assert w == v + [n];
      FirstsWithout(v, id);
      WithoutSnoc(v, n, id);
      WithoutSnoc(Firsts(v), n, id);
      FirstsSnoc(v, n);
      if n.id != id {
        FirstsSnoc(Without(v, id), n);
        WithoutElements(Firsts(v), id, n.id);
      }
    }
  }

  lemma {:induction false} WithoutAbsent(w: seq<CacheNode>, id: string)
    requires forall i | 0 <= i < |w| :: w[i].id != id
    ensures Without(w, id) == w
    decreases |w|
  {
    if w != [] {
      WithoutAbsent(w[..|w| - 1], id);
      assert w == w[..|w| - 1] + [w[|w| - 1]];
    }
  }

  lemma {:induction false} WithoutAppend(a: seq<CacheNode>, b: seq<CacheNode>, id: string)
    ensures Without(a + b, id) == Without(a, id) + Without(b, id)
    decreases |b|
  {
    if b == [] {
      assert a + b == a;
    } else {
      var k := |b| - 1;
      WithoutAppend(a, b[..k], id);
      assert a + b == (a + b[..k]) + [b[k]] && b == b[..k] + [b[k]];
      WithoutSnoc(a + b[..k], b[k], id);
      WithoutSnoc(b[..k], b[k], id);
    }
  }

  function Insert(ns: seq<CacheNode>, i: nat, x: CacheNode): seq<CacheNode>
    requires i <= |ns|
  {
    ns[..i] + [x] + ns[i..]
  }

  lemma WithoutMiddle(a: seq<CacheNode>, x: CacheNode, b: seq<CacheNode>)
    requires forall i | 0 <= i < |a| :: a[i].id != x.id
    requires forall i | 0 <= i < |b| :: b[i].id != x.id
    ensures Without(a + ([x] + b), x.id) == a + b
  {
    WithoutAppend(a, [x] + b, x.id);
    WithoutAppend([x], b, x.id);
    WithoutAbsent(a, x.id);
    WithoutAbsent(b, x.id);
    assert Without([x], x.id) == [];
    assert [] + b == b;
  }

  /** A list with distinct ids is the list without x, with x inserted where it was. */
  lemma InsertedOnce(ns: seq<CacheNode>, i: nat)
    requires DistinctIds(ns) && i < |ns|
    ensures i <= |Without(ns, ns[i].id)| && ns == Insert(Without(ns, ns[i].id), i, ns[i])
  {
    var a, x, b := ns[..i], ns[i], ns[i + 1..];
    assert ns == a + ([x] + b);
    WithoutMiddle(a, x, b);
    assert (a + b)[..i] == a && (a + b)[i..] == b;
  }

  // ---------- preference lists ----------

  function Owners(points: map<nat, CacheNode>, ks: seq<nat>): seq<CacheNode>
    requires forall i | 0 <= i < |ks| :: ks[i] in points
  {
    seq(|ks|, i requires 0 <= i < |ks| => points[ks[i]])
  }

  /** All distinct nodes, in the order the walk from `h` meets them. */
  ghost function Preference(points: map<nat, CacheNode>, h: nat): seq<CacheNode> {
    WalkMeetsAll(points.Keys, h);
    Firsts(Owners(points, Walk(points.Keys, h)))
  }

  function Take(ns: seq<CacheNode>, n: nat): seq<CacheNode> {
    if |ns| <= n then ns else ns[..n]
  }

  /** What locate_replicas(key, n) returns for a key with hash `h`. */
  ghost function PreferenceList(points: map<nat, CacheNode>, h: nat, n: nat): seq<CacheNode> {
    Take(Preference(points, h), n)
  }

  lemma {:induction false} OwnersWithout(points: map<nat, CacheNode>, big: map<nat, CacheNode>, x: string, ks: seq<nat>)
    requires forall i | 0 <= i < |ks| :: ks[i] in big
    requires forall k | k in big ::
      if k in points then big[k] == points[k] && points[k].id != x else big[k].id == x
    ensures forall k | k in Filter(ks, points.Keys) :: k in points
    ensures Without(Owners(big, ks), x) == Owners(points, Filter(ks, points.Keys))
    decreases |ks|
  {
    if ks != [] {
      var n := |ks| - 1;
      OwnersWithout(points, big, x, ks[..n]);
      assert Owners(big, ks) == Owners(big, ks[..n]) + [big[ks[n]]];
      WithoutSnoc(Owners(big, ks[..n]), big[ks[n]], x);
    }
  }

  /** Node x has no position in the ring yet, and its positions are free. */
  ghost predicate Joins(at: Placement, r: Ring, x: CacheNode) {
    && x.id !in r.nodes && at(x.id) !! r.points.Keys && at(x.id) != {}
    && forall p | p in r.points :: r.points[p].id != x.id
  }

  /** When x joins, every key's list of all nodes is the old one with x inserted somewhere. */
  lemma JoinInserts(at: Placement, r: Ring, x: CacheNode, h: nat) returns (i: nat)
    requires Joins(at, r, x)
    ensures i <= |Preference(r.points, h)|
    ensures Preference(AddNode(at, r, x).points, h) == Insert(Preference(r.points, h), i, x)
  {
    var points, big := r.points, AddNode(at, r, x).points;
    var walk := Walk(big.Keys, h);
    WalkMeetsAll(big.Keys, h);
    WalkMeetsAll(points.Keys, h);
    WalkRestricts(points.Keys, big.Keys, h);
    OwnersWithout(points, big, x.id, walk);
    var w := Owners(big, walk);
    FirstsWithout(w, x.id);
    var k :| k in at(x.id);
    assert k in walk && big[k] == x;
    i := FirstOf(big, points, x, walk, k);
    InsertedOnce(Firsts(w), i);
  }

  /** Where x stands among the distinct owners met. */
  lemma FirstOf(big: map<nat, CacheNode>, points: map<nat, CacheNode>, x: CacheNode, ks: seq<nat>, k: nat)
    returns (i: nat)
    requires forall i | 0 <= i < |ks| :: ks[i] in big
    requires forall p | p in big :: if p in points then big[p].id != x.id else big[p] == x
    requires k in ks && big[k] == x
    ensures DistinctIds(Firsts(Owners(big, ks)))
    ensures i < |Firsts(Owners(big, ks))| && Firsts(Owners(big, ks))[i] == x
  {
    var w := Owners(big, ks);
    FirstsDistinct(w);
    var j :| 0 <= j < |ks| && ks[j] == k;
    assert w[j] == x && x in w;
    var pref := Firsts(w);
    i :| 0 <= i < |pref| && pref[i].id == x.id;
    assert pref[i] in w;
    OwnerIsX(big, points, x, ks, pref[i]);
  }

  lemma OwnerIsX(big: map<nat, CacheNode>, points: map<nat, CacheNode>, x: CacheNode, ks: seq<nat>, n: CacheNode)
    requires forall i | 0 <= i < |ks| :: ks[i] in big
    requires forall k | k in big :: if k in points then big[k].id != x.id else big[k] == x
    requires n in Owners(big, ks) && n.id == x.id
    ensures n == x
  {
    var i :| 0 <= i < |ks| && Owners(big, ks)[i] == n;
  }

  lemma TakeInsert(ns: seq<CacheNode>, i: nat, x: CacheNode, n: nat) returns (k: nat)
    requires i <= |ns|
    ensures k <= |Take(ns, n)| && Take(Insert(ns, i, x), n) == Take(Insert(Take(ns, n), k, x), n)
  {
    if i <= |Take(ns, n)| {
      k := i;
      var short := Take(ns, n);
      forall j | 0 <= j < n && j < |ns| + 1
        ensures j < |Insert(short, k, x)| && Insert(ns, i, x)[j] == Insert(short, k, x)[j]
      {
      }
    } else {
      k := n;
      assert Take(Insert(ns, i, x), n) == ns[..n];
    }
  }

  /**
    Adding node x turns each key's n-node preference list into the old list with x possibly
    inserted, truncated to n: all other nodes keep their relative order.
   */
  lemma JoinKeepsOrder(at: Placement, r: Ring, x: CacheNode, h: nat, n: nat) returns (i: nat)
    requires Joins(at, r, x)
    ensures i <= |PreferenceList(r.points, h, n)|
    ensures PreferenceList(AddNode(at, r, x).points, h, n) == Take(Insert(PreferenceList(r.points, h, n), i, x), n)
  {
    var j := JoinInserts(at, r, x, h);
    i := TakeInsert(Preference(r.points, h), j, x, n);
  }

  /** Removal is the exact inverse: the list before was the list after with the node inserted. */
  lemma LeaveKeepsOrder(at: Placement, r: Ring, id: string, h: nat, n: nat) returns (i: nat)
    requires Exact(at, r) && NoCollisions(at, r.nodes.Keys) && id in r.nodes && at(id) != {}
    ensures i <= |PreferenceList(RemoveNode(at, r, id).points, h, n)|
    ensures PreferenceList(r.points, h, n) ==
            Take(Insert(PreferenceList(RemoveNode(at, r, id).points, h, n), i, r.nodes[id]), n)
  {
    AddUndoesRemove(at, r, id);
    var r' := RemoveNode(at, r, id);
    forall p | p in r'.points ensures r'.points[p].id != id {
      assert p in at(r.points[p].id);
    }
    i := JoinKeepsOrder(at, r', r.nodes[id], h, n);
  }
}
