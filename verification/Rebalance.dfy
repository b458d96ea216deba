/**
  Rebalancing after a membership change (src/cluster.cpp): push each key to the owners that are new to
  it, and drop the local copy once they all have acknowledged.
 */
module Rebalance {
  import opened Options
  import opened Versions
  import opened Rings
  import opened RingWalks
  import opened RoutingTables
  import Quorums

  /** What becomes of a write sent to a peer; it may land without the sender learning so. */
  datatype Outcome = Acked | Landed | Lost

  /** Any pattern of failures, by key and peer. */
  type Network = (string, string) -> Outcome

  /** This node's cache, what the other nodes hold, and the hints queued for them. */
  datatype World = World(
    store: map<string, VersionedValue>, peers: map<string, map<string, Tag>>, hints: seq<(string, string)>)

  function Held(w: World, id: string, key: string): Option<Tag> {
    if id in w.peers && key in w.peers[id] then Some(w.peers[id][key]) else None
  }

  /** A replica merges by last-writer-wins. */
  function Deliver(w: World, id: string, key: string, v: VersionedValue): World {
    var row := if id in w.peers then w.peers[id] else map[];
    w.(peers := w.peers[id := row[key := Merge(Held(w, id, key), ValueTag(v)).value]])
  }

  /** send_write, with a hint when no acknowledgement comes back. */
  function SendTo(w: World, net: Network, id: string, key: string, v: VersionedValue): World {
    match net(key, id)
    case Acked => Deliver(w, id, key, v)
    case Landed => var d := Deliver(w, id, key, v); d.(hints := d.hints + [(id, key)])
    case Lost => w.(hints := w.hints + [(id, key)])
  }

  /** The owners that did not hold the key before. */
  function Targets(local: string, was: seq<string>, owners: seq<string>): seq<string> {
    if owners == [] then []
    else
      var t := Targets(local, was, owners[..|owners| - 1]);
      var id := owners[|owners| - 1];
      if id == local || id in was then t else t + [id]
  }

  function SendAll(w: World, net: Network, ids: seq<string>, key: string, v: VersionedValue): World {
    if ids == [] then w
    else SendTo(SendAll(w, net, ids[..|ids| - 1], key, v), net, ids[|ids| - 1], key, v)
  }

  /** The local copy goes when this node is no owner any more and every new owner has acknowledged. */
  ghost predicate Drops(net: Network, local: string, was: seq<string>, owners: seq<string>, key: string) {
    local !in owners && forall id | id in owners && id !in was :: net(key, id) == Acked
  }

  ghost function Moved(
    w: World, net: Network, local: string, was: seq<string>, owners: seq<string>, key: string, v: VersionedValue): World
  {
    var sent := SendAll(w, net, Targets(local, was, owners), key, v);
    if Drops(net, local, was, owners, key) then sent.(store := sent.store - {key}) else sent
  }

  /** Before and after: each key's owners under the old and the new table. */
  datatype Layout = Layout(local: string, before: string -> seq<string>, now: string -> seq<string>)

  ghost function Pass(w: World, net: Network, layout: Layout, entries: seq<(string, VersionedValue)>): World
    decreases |entries|
  {
    if entries == [] then w
    else
      var (key, v) := entries[|entries| - 1];
      var w' := Pass(w, net, layout, entries[..|entries| - 1]);
      Moved(w', net, layout.local, layout.before(key), layout.now(key), key, v)
  }

  // ---------- when dropping is safe ----------

  function Elements(ids: seq<string>): set<string> {
    set id | id in ids
  }

  lemma {:induction false} ElementsSize(ids: seq<string>)
    requires Quorums.Distinct(ids)
    ensures |Elements(ids)| == |ids|
  {
    if ids != [] {
      var n := |ids| - 1;
      ElementsSize(ids[..n]);
      assert ids == ids[..n] + [ids[n]];
      assert Elements(ids) == Elements(ids[..n]) + {ids[n]};
    }
  }

  /** Pigeonhole: a list at least as long, without this node, names a node that was not an owner. */
  lemma SomeOwnerIsNew(local: string, was: seq<string>, owners: seq<string>) returns (id: string)
    requires Quorums.Distinct(was) && Quorums.Distinct(owners) && local in was && local !in owners && |owners| >= |was|
    ensures id in owners && id !in was
  {
    ElementsSize(was);
    ElementsSize(owners);
    if Elements(owners) <= Elements(was) - {local} {
      Quorums.SubsetSize(Elements(owners), Elements(was) - {local});
      assert false;
    }
    id :| id in Elements(owners) && id !in Elements(was) - {local};
  }

  /** The last member of a cluster drops every key it owned alone when it leaves. */
  lemma LastOwnerDropsAll(net: Network, local: string, key: string)
    ensures Drops(net, local, [local], [], key) && Targets(local, [local], []) == []
  {
  }

  // ---------- what the sends achieve ----------

  /** No replica goes back in the last-writer-wins order. */
  ghost predicate Grows(w: World, w': World) {
    forall id, key :: Le(Held(w, id, key), Held(w', id, key))
  }

  lemma GrowsTransitive(a: World, b: World, c: World)
    requires Grows(a, b) && Grows(b, c)
    ensures Grows(a, c)
  {
    forall id, key ensures Le(Held(a, id, key), Held(c, id, key)) {
      LeTransitive(Held(a, id, key), Held(b, id, key), Held(c, id, key));
    }
  }

  lemma SendGrows(w: World, net: Network, id: string, key: string, v: VersionedValue)
    ensures Grows(w, SendTo(w, net, id, key, v)) && SendTo(w, net, id, key, v).store == w.store
    ensures net(key, id) == Acked ==> Le(Some(ValueTag(v)), Held(SendTo(w, net, id, key, v), id, key))
    ensures net(key, id) != Acked ==> (id, key) in SendTo(w, net, id, key, v).hints
    ensures w.hints <= SendTo(w, net, id, key, v).hints
  {
    var d := Deliver(w, id, key, v);
    forall i, k ensures Le(Held(w, i, k), Held(d, i, k)) {
      if i == id && k == key {
        assert Held(d, i, k) == Merge(Held(w, i, k), ValueTag(v));
      }
    }
  }

  lemma {:induction false} SendAllDelivers(w: World, net: Network, ids: seq<string>, key: string, v: VersionedValue)
    ensures var w' := SendAll(w, net, ids, key, v);
      && Grows(w, w') && w'.store == w.store && w.hints <= w'.hints
      && (forall id | id in ids && net(key, id) == Acked :: Le(Some(ValueTag(v)), Held(w', id, key)))
      && (forall id | id in ids && net(key, id) != Acked :: (id, key) in w'.hints)
  {
    if ids != [] {
      var n := |ids| - 1;
      var before := SendAll(w, net, ids[..n], key, v);
      var after := SendAll(w, net, ids, key, v);
      SendAllDelivers(w, net, ids[..n], key, v);
      SendGrows(before, net, ids[n], key, v);
      GrowsTransitive(w, before, after);
      assert ids == ids[..n] + [ids[n]];
      forall id | id in ids && net(key, id) == Acked ensures Le(Some(ValueTag(v)), Held(after, id, key)) {
        if id != ids[n] {
          assert id in ids[..n];
          LeTransitive(Some(ValueTag(v)), Held(before, id, key), Held(after, id, key));
        }
      }
    }
  }

  lemma {:induction false} TargetsAreNew(local: string, was: seq<string>, owners: seq<string>)
    ensures forall id :: id in Targets(local, was, owners) <==> id in owners && id != local && id !in was
  {
    if owners != [] {
      TargetsAreNew(local, was, owners[..|owners| - 1]);
      assert owners == owners[..|owners| - 1] + [owners[|owners| - 1]];
    }
  }

  // ---------- one key ----------

  /** The key gains an owner. */
  ghost predicate SomeNew(layout: Layout, key: string) {
    exists id :: id in layout.now(key) && id !in layout.before(key)
  }

  /** So it does when this former owner is replaced in a list that gets no shorter. */
  lemma ReplacedOwner(layout: Layout, key: string)
    requires layout.local in layout.before(key) && layout.local !in layout.now(key)
    requires Quorums.Distinct(layout.before(key)) && Quorums.Distinct(layout.now(key))
    requires |layout.now(key)| >= |layout.before(key)|
    ensures SomeNew(layout, key)
  {
    var id := SomeOwnerIsNew(layout.local, layout.before(key), layout.now(key));
  }

  /** The copy of `key` is dropped. */
  ghost predicate Drop(net: Network, layout: Layout, key: string) {
    Drops(net, layout.local, layout.before(key), layout.now(key), key)
  }

  ghost function MoveKey(w: World, net: Network, layout: Layout, key: string, v: VersionedValue): World {
    Moved(w, net, layout.local, layout.before(key), layout.now(key), key, v)
  }

  /** Some owner new to the key holds an entry at least as new as `v`. */
  ghost predicate HandedOff(w: World, layout: Layout, key: string, v: VersionedValue) {
    exists id :: id in layout.now(key) && id !in layout.before(key) && Le(Some(ValueTag(v)), Held(w, id, key))
  }

  lemma MovedFacts(w: World, net: Network, layout: Layout, key: string, v: VersionedValue)
    ensures var w' := MoveKey(w, net, layout, key, v);
      && Grows(w, w') && w.hints <= w'.hints
      && (if Drop(net, layout, key) then w'.store == w.store - {key} else w'.store == w.store)
      && (forall id | id in layout.now(key) && id != layout.local && id !in layout.before(key) ::
            if net(key, id) == Acked then Le(Some(ValueTag(v)), Held(w', id, key)) else (id, key) in w'.hints)
  {
    TargetsAreNew(layout.local, layout.before(key), layout.now(key));
    var ids := Targets(layout.local, layout.before(key), layout.now(key));
    SendAllDelivers(w, net, ids, key, v);
  }

  lemma MovedSafely(w: World, net: Network, layout: Layout, key: string, v: VersionedValue)
    requires SomeNew(layout, key) && Drop(net, layout, key)
    ensures HandedOff(MoveKey(w, net, layout, key, v), layout, key, v)
  {
    MovedFacts(w, net, layout, key, v);
    var id :| id in layout.now(key) && id !in layout.before(key);
    assert net(key, id) == Acked;
  }

  lemma HandedOffStays(w: World, w': World, layout: Layout, key: string, v: VersionedValue)
    requires HandedOff(w, layout, key, v) && Grows(w, w')
    ensures HandedOff(w', layout, key, v)
  {
    var id :| id in layout.now(key) && id !in layout.before(key) && Le(Some(ValueTag(v)), Held(w, id, key));
    LeTransitive(Some(ValueTag(v)), Held(w, id, key), Held(w', id, key));
  }

  // ---------- when a dropped copy is still held ----------

  /** Some owner holds an entry at least as new as `v`. */
  ghost predicate OwnerHolds(w: World, layout: Layout, key: string, v: VersionedValue) {
    exists id :: id in layout.now(key) && Le(Some(ValueTag(v)), Held(w, id, key))
  }

  lemma NoTargets(local: string, was: seq<string>, owners: seq<string>)
    requires forall id | id in owners :: id in was
    ensures Targets(local, was, owners) == []
  {
    TargetsAreNew(local, was, owners);
    var ids := Targets(local, was, owners);
    assert forall i | 0 <= i < |ids| :: ids[i] in ids;
  }

  /**
    After a drop some current owner holds the entry if and only if an owner is new to the key, and so
    acknowledged it, or one of the others held it already.
   */
  lemma DropHeld(w: World, net: Network, layout: Layout, key: string, v: VersionedValue)
    requires Drop(net, layout, key)
    ensures OwnerHolds(MoveKey(w, net, layout, key, v), layout, key, v) <==>
            SomeNew(layout, key) || OwnerHolds(w, layout, key, v)
  {
    var w' := MoveKey(w, net, layout, key, v);
    if SomeNew(layout, key) {
      MovedSafely(w, net, layout, key, v);
    } else {
      NoTargets(layout.local, layout.before(key), layout.now(key));
      assert forall id :: Held(w', id, key) == Held(w, id, key);
    }
  }

  /** Whatever the owners held before, one of them holds the entry after the drop. */
  ghost predicate AlwaysHeld(net: Network, layout: Layout, key: string, v: VersionedValue) {
    forall w :: OwnerHolds(MoveKey(w, net, layout, key, v), layout, key, v)
  }

  /** A drop is safe in every world if and only if the key gains an owner. */
  lemma DropHeldExactly(net: Network, layout: Layout, key: string, v: VersionedValue)
    requires Drop(net, layout, key)
    ensures AlwaysHeld(net, layout, key, v) <==> SomeNew(layout, key)
  {
    forall w ensures SomeNew(layout, key) ==> OwnerHolds(MoveKey(w, net, layout, key, v), layout, key, v) {
      DropHeld(w, net, layout, key, v);
    }
    if !SomeNew(layout, key) {
      var alone := World(map[key := v], map[], []);
      DropHeld(alone, net, layout, key, v);
      assert !OwnerHolds(MoveKey(alone, net, layout, key, v), layout, key, v);
    }
  }

  /** Two owners, of which this one leaves: the copy goes although the other may never have had one. */
  lemma LeaverDropsOnlyCopy(net: Network, local: string, other: string, key: string, v: VersionedValue)
    requires local != other
    ensures var layout := Layout(local, _ => [local, other], _ => [other]);
      var w := World(map[key := v], map[], []);
      && Drop(net, layout, key) && key !in MoveKey(w, net, layout, key, v).store
      && !OwnerHolds(MoveKey(w, net, layout, key, v), layout, key, v)
  {
    var layout := Layout(local, _ => [local, other], _ => [other]);
    var w := World(map[key := v], map[], []);
    MovedFacts(w, net, layout, key, v);
    DropHeld(w, net, layout, key, v);
  }

  // ---------- the whole pass ----------

  ghost predicate DistinctKeys(entries: seq<(string, VersionedValue)>) {
    forall i, j | 0 <= i < j < |entries| :: entries[i].0 != entries[j].0
  }

  /** What a pass does to each entry of the snapshot. */
  ghost predicate Placed(w: World, w': World, net: Network, layout: Layout, key: string, v: VersionedValue) {
    && (Drop(net, layout, key) ==> key !in w'.store)
    && (!Drop(net, layout, key) && key in w.store ==> key in w'.store && w'.store[key] == w.store[key])
    && (key in w.store && key !in w'.store && SomeNew(layout, key) ==> HandedOff(w', layout, key, v))
    && (forall id | id in layout.now(key) && id != layout.local && id !in layout.before(key) && net(key, id) != Acked ::
          (id, key) in w'.hints && (key in w.store ==> key in w'.store))
  }

  lemma PlacedStays(w: World, w1: World, w2: World, net: Network, layout: Layout, key: string, v: VersionedValue)
    requires Placed(w, w1, net, layout, key, v) && Grows(w1, w2) && w1.hints <= w2.hints
    requires key in w1.store <==> key in w2.store
    requires key in w1.store ==> w1.store[key] == w2.store[key]
    ensures Placed(w, w2, net, layout, key, v)
  {
    if key in w.store && key !in w2.store && SomeNew(layout, key) {
      HandedOffStays(w1, w2, layout, key, v);
    }
    forall id | id in layout.now(key) && id != layout.local && id !in layout.before(key) && net(key, id) != Acked
      ensures (id, key) in w2.hints
    {
      assert (id, key) in w1.hints;
    }
  }

  lemma MovedPlaces(w: World, w1: World, net: Network, layout: Layout, key: string, v: VersionedValue)
    requires key in w.store ==> key in w1.store && w1.store[key] == w.store[key]
    ensures Placed(w, MoveKey(w1, net, layout, key, v), net, layout, key, v)
  {
    MovedFacts(w1, net, layout, key, v);
    if SomeNew(layout, key) && Drop(net, layout, key) {
      MovedSafely(w1, net, layout, key, v);
    }
  }

  ghost predicate Mentions(entries: seq<(string, VersionedValue)>, key: string) {
    exists i :: 0 <= i < |entries| && entries[i].0 == key
  }

  ghost predicate SameElsewhere(w: World, w': World, entries: seq<(string, VersionedValue)>) {
    forall key | !Mentions(entries, key) ::
      (key in w.store <==> key in w'.store) && (key in w.store ==> w'.store[key] == w.store[key])
  }

  lemma MovedElsewhere(w: World, w1: World, net: Network, layout: Layout, entries: seq<(string, VersionedValue)>)
    requires entries != []
    requires SameElsewhere(w, w1, entries[..|entries| - 1])
    ensures var (key, v) := entries[|entries| - 1];
      SameElsewhere(w, MoveKey(w1, net, layout, key, v), entries)
  {
    var n := |entries| - 1;
    var (key, v) := entries[n];
    MovedFacts(w1, net, layout, key, v);
    forall k | !Mentions(entries, k) ensures !Mentions(entries[..n], k) && k != key {
      assert entries[n].0 != k;
    }
  }

  /**
    After a pass, whatever sends failed: every key outside the snapshot is untouched; a snapshot key
    stays unless every new owner acknowledged it, and each owner that did not has a hint; a key that
    went, on a node that owned it, is held at least as new by some new owner.
   */
  lemma {:induction false} PassPlaces(w: World, net: Network, layout: Layout, entries: seq<(string, VersionedValue)>)
    requires DistinctKeys(entries)
    ensures var w' := Pass(w, net, layout, entries);
      && Grows(w, w') && w.hints <= w'.hints && SameElsewhere(w, w', entries)
      && (forall i | 0 <= i < |entries| :: Placed(w, w', net, layout, entries[i].0, entries[i].1))
    decreases |entries|
  {
    if entries == [] {
      forall id, key ensures Le(Held(w, id, key), Held(w, id, key)) {
      }
    } else {
      var n := |entries| - 1;
      var (key, v) := entries[n];
      var w1 := Pass(w, net, layout, entries[..n]);
      var w2 := Pass(w, net, layout, entries);
      PassPlaces(w, net, layout, entries[..n]);
      MovedFacts(w1, net, layout, key, v);
      GrowsTransitive(w, w1, w2);
      MovedElsewhere(w, w1, net, layout, entries);
      assert !Mentions(entries[..n], key);
      MovedPlaces(w, w1, net, layout, key, v);
      forall i | 0 <= i < n ensures Placed(w, w2, net, layout, entries[i].0, entries[i].1) {
        assert entries[..n][i] == entries[i];
        assert entries[i].0 != key;
        PlacedStays(w, w1, w2, net, layout, entries[i].0, entries[i].1);
      }
    }
  }

  /** What is sent of one key changes nothing about another. */
  lemma {:induction false} SendAllOther(w: World, net: Network, ids: seq<string>, key: string, v: VersionedValue,
                                        id: string, other: string)
    requires other != key
    ensures Held(SendAll(w, net, ids, key, v), id, other) == Held(w, id, other)
    decreases |ids|
  {
    if ids != [] {
      SendAllOther(w, net, ids[..|ids| - 1], key, v, id, other);
    }
  }

  lemma MovedOther(w: World, net: Network, layout: Layout, key: string, v: VersionedValue, id: string, other: string)
    requires other != key
    ensures Held(MoveKey(w, net, layout, key, v), id, other) == Held(w, id, other)
  {
    SendAllOther(w, net, Targets(layout.local, layout.before(key), layout.now(key)), key, v, id, other);
  }

  lemma {:induction false} PassOther(w: World, net: Network, layout: Layout, entries: seq<(string, VersionedValue)>,
                                     id: string, key: string)
    requires !Mentions(entries, key)
    ensures Held(Pass(w, net, layout, entries), id, key) == Held(w, id, key)
    decreases |entries|
  {
    if entries != [] {
      var n := |entries| - 1;
      var (k, v) := entries[n];
      var w1 := Pass(w, net, layout, entries[..n]);
      assert forall i | 0 <= i < n :: entries[..n][i] == entries[i];
      assert entries[n].0 != key;
      PassOther(w, net, layout, entries[..n], id, key);
      MovedOther(w1, net, layout, k, v, id, key);
    }
  }

  /**
    After a whole pass, a dropped entry is held at least as new by a current owner if and only if the
    key gained an owner or one of the others held it before the pass.
   */
  lemma {:induction false} PassHeldExactly(w: World, net: Network, layout: Layout,
                                           entries: seq<(string, VersionedValue)>, i: nat)
    requires DistinctKeys(entries) && i < |entries| && Drop(net, layout, entries[i].0)
    ensures OwnerHolds(Pass(w, net, layout, entries), layout, entries[i].0, entries[i].1) <==>
            SomeNew(layout, entries[i].0) || OwnerHolds(w, layout, entries[i].0, entries[i].1)
    decreases |entries|
  {
    var n := |entries| - 1;
    var (k, v) := entries[n];
    var w1 := Pass(w, net, layout, entries[..n]);
    if i < n {
      PassHeldExactly(w, net, layout, entries[..n], i);
      forall id ensures Held(MoveKey(w1, net, layout, k, v), id, entries[i].0) == Held(w1, id, entries[i].0) {
        MovedOther(w1, net, layout, k, v, id, entries[i].0);
      }
    } else {
      assert !Mentions(entries[..n], k);
      forall id ensures Held(w1, id, k) == Held(w, id, k) {
        PassOther(w, net, layout, entries[..n], id, k);
      }
      DropHeld(w1, net, layout, k, v);
    }
  }

  // ---------- on the ring ----------

  function Ids(nodes: seq<CacheNode>): seq<string> {
    seq(|nodes|, i requires 0 <= i < |nodes| => nodes[i].id)
  }

  /**
    When a node joins, a copy of a key is dropped only once the joining node itself has
    acknowledged it; an owner's list never gets shorter.
   */
  lemma JoinHandsToJoiner(at: Placement, r: Ring, x: CacheNode, h: nat, factor: nat, local: string, net: Network,
                          key: string)
    requires Joins(at, r, x)
    requires local in Ids(PreferenceList(r.points, h, factor))
    requires var owners := Ids(PreferenceList(AddNode(at, r, x).points, h, factor));
             Drops(net, local, Ids(PreferenceList(r.points, h, factor)), owners, key)
    ensures x.id in Ids(PreferenceList(AddNode(at, r, x).points, h, factor)) && net(key, x.id) == Acked
  {
    var was := PreferenceList(r.points, h, factor);
    var now := PreferenceList(AddNode(at, r, x).points, h, factor);
    var i := JoinKeepsOrder(at, r, x, h, factor);
    PreferenceListShape(r.points, h, factor);
    PreferenceListShape(AddNode(at, r, x).points, h, factor);
    var id := SomeOwnerIsNew(local, Ids(was), Ids(now));
    var j :| 0 <= j < |now| && Ids(now)[j] == id;
    OnlyInserted(was, i, x, now[j]);
  }

  lemma OnlyInserted(ns: seq<CacheNode>, i: nat, x: CacheNode, n: CacheNode)
    requires i <= |ns| && n in Insert(ns, i, x) && n.id !in Ids(ns)
    ensures n == x
  {
    forall k | 0 <= k < |ns| ensures ns[k].id in Ids(ns) {
      assert Ids(ns)[k] == ns[k].id;
    }
  }

  // ---------- as the source does it ----------

  lemma NextTarget(local: string, was: seq<string>, owners: seq<string>, i: nat)
    requires i < |owners|
    ensures owners[..i + 1] == owners[..i] + [owners[i]]
    ensures Targets(local, was, owners[..i + 1]) ==
            Targets(local, was, owners[..i]) + if owners[i] == local || owners[i] in was then [] else [owners[i]]
  {
    assert owners[..i + 1][..i] == owners[..i];
  }

  class Rebalancer {
    const local: string
    var store: map<string, VersionedValue>
    var peers: map<string, map<string, Tag>>
    var hints: seq<(string, string)>
    var placedFor: nat

    ghost function Value(): World
      reads this
    {
      World(store, peers, hints)
    }

    constructor (self: string, s: map<string, VersionedValue>, p: map<string, map<string, Tag>>, epoch: nat)
      ensures local == self && Value() == World(s, p, []) && placedFor == epoch
    {
      local, store, peers, hints, placedFor := self, s, p, [], epoch;
    }

    method SendWrite(net: Network, id: string, key: string, v: VersionedValue) returns (acked: bool)
      modifies `peers
      ensures acked <==> net(key, id) == Acked
      ensures Value() == if net(key, id) == Lost then old(Value()) else Deliver(old(Value()), id, key, v)
    {
      if net(key, id) != Lost {
        var row := if id in peers then peers[id] else map[];
        var entry := Merge(if key in row then Some(row[key]) else None, ValueTag(v));
        peers := peers[id := row[key := entry.value]];
      }
      acked := net(key, id) == Acked;
    }

    /** One owner that did not hold the key: send, and leave a hint when no acknowledgement comes. */
    method Offer(net: Network, id: string, key: string, v: VersionedValue) returns (acked: bool)
      modifies this
      ensures Value() == SendTo(old(Value()), net, id, key, v) && placedFor == old(placedFor)
      ensures acked <==> net(key, id) == Acked
    {
      acked := SendWrite(net, id, key, v);
      if !acked {
        hints := hints + [(id, key)];
      }
    }

    method PushToOwners(net: Network, was: seq<string>, owners: seq<string>, key: string, v: VersionedValue)
      returns (stillOwner: bool, handedOff: bool)
      modifies this
      ensures Value() == SendAll(old(Value()), net, Targets(local, was, owners), key, v) && placedFor == old(placedFor)
      ensures stillOwner <==> local in owners
      ensures handedOff <==> forall id | id in owners && id != local && id !in was :: net(key, id) == Acked
    {
      stillOwner, handedOff := false, true;
      for i := 0 to |owners|
        invariant stillOwner <==> local in owners[..i]
        invariant handedOff <==> forall id | id in owners[..i] && id != local && id !in was :: net(key, id) == Acked
        invariant Value() == SendAll(old(Value()), net, Targets(local, was, owners[..i]), key, v)
        invariant placedFor == old(placedFor)
      {
        var id := owners[i];
        NextTarget(local, was, owners, i);
        if id == local {
          stillOwner := true;
          continue;
        }
        if id in was {
          continue;
        }
        ghost var t := Targets(local, was, owners[..i]);
        assert (t + [id])[..|t|] == t;
        var acked := Offer(net, id, key, v);
        handedOff := handedOff && acked;
      }
      assert owners[..|owners|] == owners;
    }

    method RebalanceKey(net: Network, was: seq<string>, owners: seq<string>, key: string, v: VersionedValue)
      modifies this
      ensures Value() == Moved(old(Value()), net, local, was, owners, key, v) && placedFor == old(placedFor)
    {
      var stillOwner, handedOff := PushToOwners(net, was, owners, key, v);
      if !stillOwner && handedOff {
        store := store - {key};
      }
    }

    /** Tables are told apart by their epoch; data already placed for the current one is left alone. */
    method RebalanceNow(net: Network, layout: Layout, epoch: nat, snapshot: seq<(string, VersionedValue)>)
      requires layout.local == local
      modifies this
      ensures Value() == if old(placedFor) == epoch then old(Value()) else Pass(old(Value()), net, layout, snapshot)
      ensures placedFor == epoch
    {
      if placedFor == epoch {
        return;
      }
      for i := 0 to |snapshot|
        invariant Value() == Pass(old(Value()), net, layout, snapshot[..i])
      {
        assert snapshot[..i + 1][..i] == snapshot[..i];
        var (key, v) := snapshot[i];
        RebalanceKey(net, layout.before(key), layout.now(key), key, v);
      }
      assert snapshot[..|snapshot|] == snapshot;
      placedFor := epoch;
    }
  }
}
