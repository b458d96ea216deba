/**
  The storage engine as the source keeps it (src/cache.cpp): a list of nodes and an index from keys
  to the same nodes, both changed in place.  Every method is proved against LruLists.
 */
module Caches {
  import opened Options
  import opened Versions
  import opened LruLists
  import opened CacheRuns

  class Node {
    const key: string
    var entry: CacheEntry
    var lastPromoted: int

    constructor (k: string, e: CacheEntry)
      ensures key == k && entry == e && lastPromoted == 0
    {
      key, entry, lastPromoted := k, e, 0;
    }
  }

  /** List and index hold the same nodes, under distinct keys. */
  ghost predicate Linked(list: seq<Node>, index: map<string, Node>) {
    && (forall i | 0 <= i < |list| :: list[i].key in index && index[list[i].key] == list[i])
    && (forall k | k in index :: index[k] in list && index[k].key == k)
    && DistinctNodes(list)
  }

  ghost function SlotOf(n: Node): Slot
    reads n
  {
    Slot(n.key, n.entry, n.lastPromoted)
  }

  /** The list as values. */
  ghost function Slots(list: seq<Node>): seq<Slot>
    reads list
  {
    if list == [] then [] else [SlotOf(list[0])] + Slots(list[1..])
  }

  /** std::list::erase of the node under `key`. */
  function Unlink(list: seq<Node>, key: string): seq<Node> {
    if list == [] then [] else if list[0].key == key then Unlink(list[1..], key) else [list[0]] + Unlink(list[1..], key)
  }

  lemma {:induction false} SlotsAt(list: seq<Node>)
    ensures |Slots(list)| == |list| && forall i | 0 <= i < |list| :: Slots(list)[i] == SlotOf(list[i])
  {
    if list != [] {
      SlotsAt(list[1..]);
    }
  }

  lemma {:induction false} UnlinkIsWithout(list: seq<Node>, key: string)
    ensures Slots(Unlink(list, key)) == Without(Slots(list), key)
  {
    if list != [] {
      UnlinkIsWithout(list[1..], key);
      assert Slots(list)[1..] == Slots(list[1..]);
      if list[0].key != key {
        assert Unlink(list, key)[1..] == Unlink(list[1..], key);
      }
    }
  }

  ghost predicate DistinctNodes(list: seq<Node>) {
    forall i, j | 0 <= i < j < |list| :: list[i].key != list[j].key
  }

  lemma {:induction false} UnlinkSubset(list: seq<Node>, key: string)
    ensures forall i | 0 <= i < |Unlink(list, key)| :: Unlink(list, key)[i] in list && Unlink(list, key)[i].key != key
  {
    if list != [] {
      UnlinkSubset(list[1..], key);
    }
  }

  lemma {:induction false} UnlinkKeeps(list: seq<Node>, key: string, i: nat)
    requires i < |list| && list[i].key != key
    ensures list[i] in Unlink(list, key)
  {
    if i > 0 {
      UnlinkKeeps(list[1..], key, i - 1);
    }
  }

  lemma {:induction false} UnlinkDistinct(list: seq<Node>, key: string)
    requires DistinctNodes(list)
    ensures DistinctNodes(Unlink(list, key))
  {
    if list != [] {
      var t := list[1..];
      UnlinkDistinct(t, key);
      UnlinkSubset(t, key);
      var rest := Unlink(t, key);
      forall i | 0 <= i < |rest| ensures rest[i].key != list[0].key {
        var j :| 0 <= j < |t| && t[j] == rest[i];
        assert list[j + 1] == rest[i];
      }
    }
  }

  lemma UnlinkElements(list: seq<Node>, key: string)
    requires DistinctNodes(list)
    ensures DistinctNodes(Unlink(list, key))
    ensures forall i | 0 <= i < |Unlink(list, key)| :: Unlink(list, key)[i] in list && Unlink(list, key)[i].key != key
    ensures forall i | 0 <= i < |list| :: list[i].key != key ==> list[i] in Unlink(list, key)
  {
    UnlinkSubset(list, key);
    UnlinkDistinct(list, key);
    forall i | 0 <= i < |list| && list[i].key != key ensures list[i] in Unlink(list, key) {
      UnlinkKeeps(list, key, i);
    }
  }

  lemma UnlinkLinked(list: seq<Node>, index: map<string, Node>, key: string)
    requires Linked(list, index)
    ensures Linked(Unlink(list, key), index - {key})
  {
    UnlinkElements(list, key);
    var l, m := Unlink(list, key), index - {key};
    forall i | 0 <= i < |l| ensures l[i].key in m && m[l[i].key] == l[i] {
      var j :| 0 <= j < |list| && list[j] == l[i];
    }
    forall k | k in m ensures m[k] in l && m[k].key == k {
      var j :| 0 <= j < |list| && list[j] == index[k];
    }
  }

  lemma FrontLinked(list: seq<Node>, index: map<string, Node>, n: Node)
    requires Linked(list, index) && n.key !in index
    ensures Linked([n] + list, index[n.key := n])
  {
    var l, m := [n] + list, index[n.key := n];
    forall k | k in m ensures m[k] in l && m[k].key == k {
    }
  }

  /** Searching the index is searching the list. */
  lemma {:induction false} IndexedLookup(list: seq<Node>, index: map<string, Node>, key: string)
    requires forall i | 0 <= i < |list| :: list[i].key in index && index[list[i].key] == list[i]
    ensures Lookup(Slots(list), key) ==
            if key in index && index[key] in list && index[key].key == key then Some(SlotOf(index[key])) else None
  {
    if list != [] {
      IndexedLookup(list[1..], index, key);
      assert Slots(list)[1..] == Slots(list[1..]);
      assert list == [list[0]] + list[1..];
    }
  }

  lemma UnlinkFacts(list: seq<Node>, index: map<string, Node>, key: string)
    requires Linked(list, index)
    ensures Linked(Unlink(list, key), index - {key})
    ensures Slots(Unlink(list, key)) == Without(Slots(list), key)
    ensures forall m | m in Unlink(list, key) :: m in list
  {
    UnlinkLinked(list, index, key);
    UnlinkIsWithout(list, key);
    UnlinkSubset(list, key);
  }

  lemma SpliceFacts(list: seq<Node>, index: map<string, Node>, n: Node)
    requires Linked(list, index) && n in list
    ensures Linked([n] + Unlink(list, n.key), index)
    ensures Slots([n] + Unlink(list, n.key)) == [SlotOf(n)] + Without(Slots(list), n.key)
    ensures forall m | m in [n] + Unlink(list, n.key) :: m in list
  {
    SpliceLinked(list, index, n);
    UnlinkIsWithout(list, n.key);
    UnlinkSubset(list, n.key);
    assert ([n] + Unlink(list, n.key))[1..] == Unlink(list, n.key);
  }

  class Cache {
    const capacity: nat
    const tombstoneTtl: int
    var tombstones: int
    var lruList: seq<Node>
    var entries: map<string, Node>

    /** List and index agree. */
    ghost predicate Wired()
      reads this
    {
      Linked(lruList, entries)
    }

    /** Between operations the counter and the capacity are right as well. */
    ghost predicate Valid()
      reads this, lruList
    {
      Wired() && Sound(E())
    }

    ghost function List(): seq<Slot>
      reads this, lruList
    {
      Slots(lruList)
    }

    /** The stored state as CacheRuns sees it, with no history. */
    ghost function E(): Engine
      reads this, lruList
    {
      Engine(capacity, tombstoneTtl, List(), tombstones, 0, map[], map[], multiset{})
    }

    ghost predicate Holds(e: Engine)
      reads this, lruList
    {
      List() == e.list && tombstones == e.tombstones
    }

    constructor (cap: nat, ttl: int)
      ensures Valid() && capacity == cap && tombstoneTtl == ttl && List() == [] && tombstones == 0 && fresh(this)
    {
      capacity, tombstoneTtl := cap, ttl;
      tombstones, lruList, entries := 0, [], map[];
    }

    method EraseNode(n: Node)
      requires Wired() && n in lruList
      modifies this
      ensures Wired() && List() == Without(old(List()), n.key)
      ensures lruList == Unlink(old(lruList), n.key)
      ensures forall m | m in lruList :: m in old(lruList)
      ensures tombstones == old(tombstones) - if old(n.entry).tombstone then 1 else 0
    {
      if n.entry.tombstone {
        tombstones := tombstones - 1;
      }
      UnlinkFacts(lruList, entries, n.key);
      entries := entries - {n.key};
      lruList := Unlink(lruList, n.key);
    }

    /** splice(begin, list, it): the node moves to the front. */
    method MoveToFront(n: Node)
      requires Wired() && n in lruList
      modifies `lruList
      ensures Wired() && List() == [SlotOf(n)] + Without(old(List()), n.key)
      ensures lruList == [n] + Unlink(old(lruList), n.key)
      ensures forall m | m in lruList :: m in old(lruList)
    {
      SpliceFacts(lruList, entries, n);
      lruList := [n] + Unlink(lruList, n.key);
    }

    /** What the index says about a key is what the list says. */
    lemma Found(key: string)
      requires Wired()
      ensures Lookup(List(), key) == if key in entries then Some(SlotOf(entries[key])) else None
      ensures key in entries ==> entries[key] in lruList && entries[key].key == key
    {
      IndexedLookup(lruList, entries, key);
    }

    lemma Sizes()
      requires Wired()
      ensures |entries| == |lruList| == |List()|
    {
      SlotsAt(lruList);
      LinkedSize(lruList, entries);
    }

    /** Overwrites a node's entry in place and splices the node to the front. */
    method Replace(n: Node, e: CacheEntry)
      requires Wired() && n in lruList
      modifies `lruList, n
      ensures Wired() && List() == [old(SlotOf(n)).(entry := e)] + Without(old(List()), n.key)
      ensures forall m | m in lruList :: m in old(lruList)
    {
      ghost var rest := Unlink(lruList, n.key);
      UnlinkIsWithout(lruList, n.key);
      UnlinkElements(lruList, n.key);
      n.entry := e;
      UnlinkIsWithout(lruList, n.key);
      MoveToFront(n);
    }

    method EvictLru()
      requires Wired()
      modifies this
      ensures Wired() && forall m | m in lruList :: m in old(lruList)
      ensures old(List()) == [] ==> unchanged(this)
      ensures old(List()) != [] ==> List() == old(List())[..|old(List())| - 1]
      ensures old(List()) != [] ==> tombstones == old(tombstones) - Weight(Some(old(List())[|old(List())| - 1]))
      ensures entries.Keys <= old(entries.Keys)
    {
      if lruList == [] {
        return;
      }
      var n := lruList[|lruList| - 1];
      LastSlot(lruList);
      EraseNode(n);
    }

    method EvictIfFull()
      requires Wired()
      modifies this
      ensures Wired() && forall m | m in lruList :: m in old(lruList)
      ensures List() == MakeRoom(old(List()), capacity)
      ensures tombstones == old(tombstones) - Weight(Victim(old(List()), capacity))
      ensures entries.Keys <= old(entries.Keys)
    {
      Sizes();
      if capacity > 0 && |entries| >= capacity {
        EvictLru();
      }
    }

    /** emplace_front and emplace. */
    method PushFront(key: string, e: CacheEntry)
      requires Wired() && key !in entries
      modifies this
      ensures Wired() && List() == [Slot(key, e, 0)] + old(List())
      ensures tombstones == old(tombstones)
      ensures forall m | m in lruList :: m in old(lruList) || fresh(m)
    {
      var n := new Node(key, e);
      ghost var before := lruList;
      FrontLinked(lruList, entries, n);
      lruList := [n] + lruList;
      entries := entries[key := n];
      assert lruList[1..] == before;
    }

    method Set(key: string, value: string, ttlMs: Option<int>, now: int)
      requires Valid()
      modifies this, lruList
      ensures Valid() && Holds(CacheRuns.Step(old(E()), Op.Set(key, value, ttlMs), now))
    {
      StepSound(E(), Op.Set(key, value, ttlMs), now);
      StoreEntry(key, CacheEntry(value, Expiry(now, ttlMs), 0, false), now);
    }

    /** get() under the shared lock. */
    method GetShared(key: string, at: int) returns (value: Option<string>, promote: bool)
      requires Valid()
      ensures value.Some? <==> Hit(List(), key, at)
      ensures value.Some? ==> value.value == Lookup(List(), key).value.entry.value
      ensures promote <==> value.Some? && Promotes(Lookup(List(), key).value, at)
    {
      Found(key);
      if key !in entries || entries[key].entry.tombstone || IsExpired(entries[key].entry, at) {
        return None, false;
      }
      var last := entries[key].lastPromoted;
      return Some(entries[key].entry.value), !(last != 0 && at - last < PROMOTE_INTERVAL);
    }

    /** Records the promotion of the front node. */
    method Stamp(n: Node, at: int)
      requires Wired() && lruList != [] && lruList[0] == n
      modifies n
      ensures List() == [old(SlotOf(n)).(lastPromoted := at)] + old(List())[1..]
    {
      ghost var rest := lruList[1..];
      assert n !in rest by {
        forall i | 0 <= i < |rest| ensures rest[i].key != n.key {
          assert rest[i] == lruList[i + 1];
        }
      }
      assert List()[1..] == Slots(rest);
      n.lastPromoted := at;
    }

    /** get() under the exclusive lock. */
    method Promote(key: string, at: int)
      requires Valid()
      modifies this, lruList
      ensures Valid() && Holds(CacheRuns.Step(old(E()), Op.Promote(key, at), at))
    {
      StepSound(E(), Op.Promote(key, at), at);
      Found(key);
      if key in entries {
        var n := entries[key];
        MoveToFront(n);
        Stamp(n, at);
      }
    }

    /** get() with no operation between its two locked sections. */
    method Get(key: string, now: int) returns (value: Option<string>)
      requires Valid()
      modifies this, lruList
      ensures Valid()
      ensures value.Some? <==> Hit(old(List()), key, now)
      ensures value.Some? ==> value.value == Lookup(old(List()), key).value.entry.value
      ensures List() == if Hit(old(List()), key, now) && Promotes(Lookup(old(List()), key).value, now)
                        then Promoted(old(List()), key, now) else old(List())
      ensures tombstones == old(tombstones)
    {
      var promote;
      value, promote := GetShared(key, now);
      if promote {
        Promote(key, now);
      }
    }

    method Remove(key: string, now: int) returns (wasLive: bool)
      requires Valid()
      modifies this
      ensures Valid() && Holds(CacheRuns.Step(old(E()), Op.Remove(key), now))
      ensures wasLive <==> Hit(old(List()), key, now)
    {
      StepSound(E(), Op.Remove(key), now);
      Found(key);
      if key !in entries {
        WithoutAbsent(List(), key);
        return false;
      }
      var n := entries[key];
      wasLive := IsLive(n.entry, now);
      EraseNode(n);
    }

    /** Stores an entry under its key, new or not. */
    method StoreEntry(key: string, entry: CacheEntry, ghost now: int)
      requires Wired()
      modifies this, lruList
      ensures Wired() && Holds(Store(old(E()), key, entry, now))
      ensures forall m | m in lruList :: m in old(lruList) || fresh(m)
    {
      Found(key);
      if key in entries {
        var n := entries[key];
        tombstones := tombstones - (if n.entry.tombstone then 1 else 0) + (if entry.tombstone then 1 else 0);
        Replace(n, entry);
      } else {
        EvictIfFull();
        PushFront(key, entry);
        if entry.tombstone {
          tombstones := tombstones + 1;
        }
      }
    }

    /** Last-writer-wins; true exactly when the store accepts the value. */
    method Apply(key: string, v: VersionedValue, now: int) returns (changed: bool, wasLive: bool)
      requires Valid()
      modifies this, lruList
      ensures Valid() && Holds(CacheRuns.Step(old(E()), Op.Apply(key, v), now))
      ensures changed <==> Accepts(old(List()), key, v, now)
      ensures wasLive <==> Hit(old(List()), key, now)
      ensures forall m | m in lruList :: m in old(lruList) || fresh(m)
    {
      StepSound(E(), Op.Apply(key, v), now);
      Found(key);
      wasLive := key in entries && IsLive(entries[key].entry, now);
      if key in entries && !IsExpired(entries[key].entry, now)
         && !Supersedes(v.version, v.tombstone, v.value, entries[key].entry) {
        return false, wasLive;
      }
      StoreEntry(key, AppliedEntry(v, tombstoneTtl, now), now);
      return true, wasLive;
    }

    method GetVersioned(key: string, now: int) returns (v: Option<VersionedValue>)
      requires Valid()
      ensures v == if Lookup(List(), key).None? then None else Visible(Lookup(List(), key).value.entry, now)
    {
      Found(key);
      if key !in entries || IsExpired(entries[key].entry, now) {
        return None;
      }
      var e := entries[key].entry;
      v := Some(VersionedValue(e.value, e.version, e.tombstone, None));
      if !e.tombstone && e.expiresAt.Some? {
        v := Some(v.value.(ttl := Some((e.expiresAt.value - now) / TICKS_PER_MS)));
      }
    }

    /** Every entry that has not expired, most recently placed first. */
    method Snapshot(now: int) returns (out: seq<(string, VersionedValue)>)
      requires Valid()
      ensures out == Listing(List(), now)
    {
      out := [];
      for i := 0 to |lruList|
        invariant out == Listing(Slots(lruList[..i]), now)
      {
        assert lruList[..i + 1] == lruList[..i] + [lruList[i]];
        SlotsAppend(lruList[..i], [lruList[i]]);
        assert [lruList[i]][1..] == [] && Slots([lruList[i]]) == [SlotOf(lruList[i])];
        ListingSnoc(Slots(lruList[..i]), SlotOf(lruList[i]), now);
        var v := Visible(lruList[i].entry, now);
        if v.Some? {
          out := out + [(lruList[i].key, v.value)];
        }
      }
      assert lruList[..|lruList|] == lruList;
    }

    /** The number of entries that are not tombstones; it never underflows. */
    method Size() returns (n: int)
      requires Valid()
      ensures 0 <= n == |List()| - Tombstones(List())
    {
      TombstonesBounded(List());
      Sizes();
      n := |entries| - tombstones;
    }

    method Clear()
      modifies this
      ensures Valid() && List() == [] && tombstones == 0
    {
      entries, lruList, tombstones := map[], [], 0;
    }

    method Expire(key: string, ttl: int, now: int) returns (set': bool)
      requires Valid()
      modifies this, lruList
      ensures Valid() && Holds(CacheRuns.Step(old(E()), Op.Expire(key, ttl), now))
      ensures set' <==> Hit(old(List()), key, now)
    {
      StepSound(E(), Op.Expire(key, ttl), now);
      Found(key);
      if key !in entries {
        return false;
      }
      var n := entries[key];
      if n.entry.tombstone {
        return false;
      }
      if IsExpired(n.entry, now) {
        EraseNode(n);
        return false;
      }
      Assign(n, n.entry.(expiresAt := Some(now + ttl * TICKS_PER_MS)));
      return true;
    }

    /** Changes a node's entry where it is. */
    method Assign(n: Node, entry: CacheEntry)
      requires Wired() && n in lruList
      modifies n
      ensures List() == Updated(old(List()), n.key, entry)
    {
      ghost var before := List();
      SlotsAt(lruList);
      UpdatedAt(before, n.key, entry);
      n.entry := entry;
      SlotsAt(lruList);
      forall i | 0 <= i < |lruList| ensures List()[i] == Updated(before, n.key, entry)[i] {
      }
    }

    method PurgeExpired(now: int)
      requires Valid()
      modifies this
      ensures Valid() && Holds(CacheRuns.Step(old(E()), Op.Purge, now))
    {
      StepSound(E(), Op.Purge, now);
      Sweep(now);
    }

    /** The sweep: erases while iterating. */
    method Sweep(now: int)
      requires Wired()
      modifies this
      ensures Wired() && List() == Unexpired(old(List()), now)
      ensures tombstones - Tombstones(List()) == old(tombstones) - Tombstones(old(List()))
    {
      ghost var was := List();
      var i := 0;
      assert lruList[..0] == [] && lruList[0..] == lruList;
      while i < |lruList|
        invariant 0 <= i <= |lruList| && Wired()
        invariant Swept(lruList, i, was, now)
        invariant tombstones - Tombstones(List()) == old(tombstones) - Tombstones(was)
        decreases |lruList| - i
      {
        if IsExpired(lruList[i].entry, now) {
          SweepNode(i, was, now);
        } else {
          SweptStep(lruList, i, was, now);
          i := i + 1;
        }
      }
      SweptAll(lruList, was, now);
    }

    method SweepNode(i: nat, ghost was: seq<Slot>, now: int)
      requires Wired() && i < |lruList| && Swept(lruList, i, was, now) && IsExpired(lruList[i].entry, now)
      modifies this
      ensures Wired() && |lruList| == old(|lruList|) - 1 && Swept(lruList, i, was, now)
      ensures tombstones - Tombstones(List()) == old(tombstones - Tombstones(List()))
    {
      EraseAccount(lruList[i]);
      UnlinkMiddle(lruList, i);
      SweptStep(lruList, i, was, now);
      EraseNode(lruList[i]);
    }

    lemma EraseAccount(n: Node)
      requires Wired() && n in lruList
      ensures Tombstones(Without(List(), n.key)) == Tombstones(List()) - if n.entry.tombstone then 1 else 0
    {
      Found(n.key);
      SlotsAt(lruList);
      WithoutFacts(List(), n.key);
    }
  }

  /** The sweep has reached position i; what is left to do gives the unexpired entries. */
  ghost predicate Swept(list: seq<Node>, i: nat, was: seq<Slot>, now: int)
    requires i <= |list|
    reads list
  {
    Slots(list[..i]) + Unexpired(Slots(list[i..]), now) == Unexpired(was, now)
  }

  lemma SweptStep(list: seq<Node>, i: nat, was: seq<Slot>, now: int)
    requires i < |list| && Swept(list, i, was, now)
    ensures if IsExpired(list[i].entry, now) then Swept(list[..i] + list[i + 1..], i, was, now)
            else Swept(list, i + 1, was, now)
  {
    var n := list[i];
    assert list[i..][1..] == list[i + 1..];
    assert Slots(list[i..]) == [SlotOf(n)] + Slots(list[i + 1..]);
    assert Slots(list[i..])[1..] == Slots(list[i + 1..]);
    if IsExpired(n.entry, now) {
      var l := list[..i] + list[i + 1..];
      assert l[..i] == list[..i] && l[i..] == list[i + 1..];
    } else {
      SlotsAppend(list[..i], [n]);
      assert list[..i] + [n] == list[..i + 1];
    }
  }

  lemma SweptAll(list: seq<Node>, was: seq<Slot>, now: int)
    requires Swept(list, |list|, was, now)
    ensures Slots(list) == Unexpired(was, now)
  {
    assert list[..|list|] == list && Slots(list[|list|..]) == [];
  }

  /** get_versioned()'s answer: a tombstone is reported, an expired entry is not. */
  function Visible(e: CacheEntry, now: int): Option<VersionedValue> {
    if IsExpired(e, now) then None
    else Some(VersionedValue(e.value, e.version, e.tombstone,
                             if e.tombstone || e.expiresAt.None? then None
                             else Some((e.expiresAt.value - now) / TICKS_PER_MS)))
  }

  function Listing(l: seq<Slot>, now: int): seq<(string, VersionedValue)> {
    if l == [] then []
    else
      var v := Visible(l[0].entry, now);
      (if v.Some? then [(l[0].key, v.value)] else []) + Listing(l[1..], now)
  }

  lemma {:induction false} ListingSnoc(l: seq<Slot>, s: Slot, now: int)
    ensures Listing(l + [s], now) ==
            Listing(l, now) + if Visible(s.entry, now).Some? then [(s.key, Visible(s.entry, now).value)] else []
  {
    if l == [] {
      assert [] + [s] == [s] && [s][1..] == [];
    } else {
      ListingSnoc(l[1..], s, now);
      assert (l + [s])[1..] == l[1..] + [s];
    }
  }

  lemma {:induction false} WithoutAbsent(l: seq<Slot>, key: string)
    requires Lookup(l, key).None?
    ensures Without(l, key) == l
  {
    if l != [] {
      WithoutAbsent(l[1..], key);
    }
  }

  lemma {:induction false} UpdatedAt(l: seq<Slot>, key: string, entry: CacheEntry)
    ensures |Updated(l, key, entry)| == |l|
    ensures forall i | 0 <= i < |l| ::
              Updated(l, key, entry)[i] == if l[i].key == key then l[i].(entry := entry) else l[i]
  {
    if l != [] {
      UpdatedAt(l[1..], key, entry);
    }
  }

  lemma {:induction false} SlotsAppend(a: seq<Node>, b: seq<Node>)
    ensures Slots(a + b) == Slots(a) + Slots(b)
  {
    if a == [] {
      assert a + b == b;
    } else {
      SlotsAppend(a[1..], b);
      assert (a + b)[1..] == a[1..] + b;
    }
  }

  lemma {:induction false} UnlinkMiddle(list: seq<Node>, i: nat)
    requires DistinctNodes(list) && i < |list|
    ensures Unlink(list, list[i].key) == list[..i] + list[i + 1..]
  {
    if i == 0 {
      UnlinkHead(list);
    } else {
      assert list[0].key != list[i].key;
      UnlinkMiddle(list[1..], i - 1);
      assert [list[0]] + list[1..][..i - 1] == list[..i] && list[1..][i..] == list[i + 1..];
    }
  }

  lemma {:induction false} WithoutLast(l: seq<Slot>)
    requires DistinctKeys(l) && l != []
    ensures Without(l, l[|l| - 1].key) == l[..|l| - 1]
    decreases |l|
  {
    var t := l[1..];
    if |l| > 1 {
      WithoutLast(t);
      assert t[|t| - 1] == l[|l| - 1] && l[0].key != l[|l| - 1].key;
      assert l[..|l| - 1] == [l[0]] + t[..|t| - 1];
    }
  }

  lemma LastSlot(list: seq<Node>)
    requires DistinctNodes(list) && list != []
    ensures var l, n := Slots(list), list[|list| - 1];
      l != [] && l[|l| - 1] == SlotOf(n) && Without(l, n.key) == l[..|l| - 1]
  {
    SlotsAt(list);
    WithoutLast(Slots(list));
  }

  lemma {:induction false} LinkedSize(list: seq<Node>, index: map<string, Node>)
    requires Linked(list, index)
    ensures |index| == |list|
    decreases |list|
  {
    if list == [] {
      assert index.Keys == {};
    } else {
      var k := list[0].key;
      UnlinkLinked(list, index, k);
      UnlinkHead(list);
      LinkedSize(list[1..], index - {k});
      assert index.Keys == (index - {k}).Keys + {k};
    }
  }

  lemma UnlinkHead(list: seq<Node>)
    requires DistinctNodes(list) && list != []
    ensures Unlink(list, list[0].key) == list[1..]
  {
    UnlinkAbsent(list[1..], list[0].key);
  }

  lemma {:induction false} UnlinkAbsent(list: seq<Node>, key: string)
    requires forall i | 0 <= i < |list| :: list[i].key != key
    ensures Unlink(list, key) == list
  {
    if list != [] {
      UnlinkAbsent(list[1..], key);
    }
  }

  lemma SpliceLinked(list: seq<Node>, index: map<string, Node>, n: Node)
    requires Linked(list, index) && n in list
    ensures Linked([n] + Unlink(list, n.key), index)
  {
    UnlinkLinked(list, index, n.key);
    FrontLinked(Unlink(list, n.key), index - {n.key}, n);
    assert (index - {n.key})[n.key := n] == index;
  }
}
