/**
  The storage engine's operations on values (src/cache.cpp): an LRU list of entries, the tombstone
  counter, and the access times the eviction bound speaks about.  Times are clock ticks.
 */
module LruLists {
  import opened Options
  import opened Versions

  const TICKS_PER_MS := 1000000
  const PROMOTE_INTERVAL := 100 * TICKS_PER_MS

  /** A list node; lastPromoted 0 means never promoted. */
  datatype Slot = Slot(key: string, entry: CacheEntry, lastPromoted: int)

  predicate IsLive(e: CacheEntry, now: int) {
    !e.tombstone && !IsExpired(e, now)
  }

  function Lookup(l: seq<Slot>, key: string): Option<Slot> {
    if l == [] then None else if l[0].key == key then Some(l[0]) else Lookup(l[1..], key)
  }

  function Without(l: seq<Slot>, key: string): seq<Slot> {
    if l == [] then [] else if l[0].key == key then Without(l[1..], key) else [l[0]] + Without(l[1..], key)
  }

  function Unexpired(l: seq<Slot>, now: int): seq<Slot> {
    if l == [] then [] else (if IsExpired(l[0].entry, now) then [] else [l[0]]) + Unexpired(l[1..], now)
  }

  /** The same keys, with the entry of `key` changed and its place kept. */
  function Updated(l: seq<Slot>, key: string, entry: CacheEntry): seq<Slot> {
    if l == [] then []
    else (if l[0].key == key then [l[0].(entry := entry)] else [l[0]]) + Updated(l[1..], key, entry)
  }

  function Tombstones(l: seq<Slot>): nat {
    if l == [] then 0 else (if l[0].entry.tombstone then 1 else 0) + Tombstones(l[1..])
  }

  predicate DistinctKeys(l: seq<Slot>) {
    forall i, j | 0 <= i < j < |l| :: l[i].key != l[j].key
  }

  /** Room for one more key: the least recently placed entry goes if the cache is full. */
  function MakeRoom(l: seq<Slot>, capacity: nat): seq<Slot> {
    if capacity > 0 && |l| >= capacity then l[..|l| - 1] else l
  }

  /** Stores `entry` at the front, under a key that may be new. */
  function Put(l: seq<Slot>, capacity: nat, key: string, entry: CacheEntry): seq<Slot> {
    match Lookup(l, key)
    case Some(s) => [s.(entry := entry)] + Without(l, key)
    case None => [Slot(key, entry, 0)] + MakeRoom(l, capacity)
  }

  function Expiry(now: int, ttlMs: Option<int>): Option<int> {
    if ttlMs.Some? then Some(now + ttlMs.value * TICKS_PER_MS) else None
  }

  function AppliedEntry(v: VersionedValue, tombstoneTtl: int, now: int): CacheEntry {
    CacheEntry(v.value, if v.tombstone then Some(now + tombstoneTtl) else Expiry(now, v.ttl), v.version, v.tombstone)
  }

  /** Whether apply() changes the store. */
  predicate Accepts(l: seq<Slot>, key: string, v: VersionedValue, now: int) {
    var s := Lookup(l, key);
    s.None? || IsExpired(s.value.entry, now) || Supersedes(v.version, v.tombstone, v.value, s.value.entry)
  }

  predicate Hit(l: seq<Slot>, key: string, now: int) {
    Lookup(l, key).Some? && IsLive(Lookup(l, key).value.entry, now)
  }

  /** A hit is promoted at most once per interval. */
  predicate Promotes(s: Slot, now: int) {
    s.lastPromoted == 0 || now - s.lastPromoted >= PROMOTE_INTERVAL
  }

  function Promoted(l: seq<Slot>, key: string, now: int): seq<Slot> {
    match Lookup(l, key)
    case None => l
    case Some(s) => [s.(lastPromoted := now)] + Without(l, key)
  }

  // ---------- facts about lists ----------

  lemma {:induction false} LookupFinds(l: seq<Slot>, key: string)
    ensures Lookup(l, key).Some? ==> Lookup(l, key).value in l && Lookup(l, key).value.key == key
    ensures Lookup(l, key).None? <==> forall i | 0 <= i < |l| :: l[i].key != key
  {
    if l != [] {
      LookupFinds(l[1..], key);
      assert l == [l[0]] + l[1..];
    }
  }

  lemma {:induction false} LookupAt(l: seq<Slot>, i: nat)
    requires DistinctKeys(l) && i < |l|
    ensures Lookup(l, l[i].key) == Some(l[i])
  {
    if i > 0 {
      assert l[0].key != l[i].key;
      LookupAt(l[1..], i - 1);
    }
  }

  lemma {:induction false} WithoutElements(l: seq<Slot>, key: string)
    ensures forall s :: s in Without(l, key) <==> s in l && s.key != key
  {
    if l != [] {
      WithoutElements(l[1..], key);
      assert l == [l[0]] + l[1..];
    }
  }

  lemma {:induction false} WithoutDistinct(l: seq<Slot>, key: string)
    requires DistinctKeys(l)
    ensures DistinctKeys(Without(l, key))
  {
    if l != [] {
      var t := l[1..];
      WithoutDistinct(t, key);
      WithoutElements(t, key);
      forall s | s in t ensures s.key != l[0].key {
      }
    }
  }

  lemma {:induction false} WithoutCounts(l: seq<Slot>, key: string)
    requires DistinctKeys(l)
    ensures |Without(l, key)| == |l| - if Lookup(l, key).Some? then 1 else 0
    ensures Tombstones(Without(l, key)) ==
            Tombstones(l) - if Lookup(l, key).Some? && Lookup(l, key).value.entry.tombstone then 1 else 0
  {
    if l != [] {
      var t := l[1..];
      WithoutCounts(t, key);
      if l[0].key == key {
        LookupFinds(t, key);
        assert Lookup(t, key).None?;
      } else {
        assert ([l[0]] + Without(t, key))[1..] == Without(t, key);
      }
    }
  }

  lemma WithoutFacts(l: seq<Slot>, key: string)
    requires DistinctKeys(l)
    ensures DistinctKeys(Without(l, key))
    ensures forall s :: s in Without(l, key) <==> s in l && s.key != key
    ensures |Without(l, key)| == |l| - if Lookup(l, key).Some? then 1 else 0
    ensures Tombstones(Without(l, key)) ==
            Tombstones(l) - if Lookup(l, key).Some? && Lookup(l, key).value.entry.tombstone then 1 else 0
  {
    WithoutElements(l, key);
    WithoutDistinct(l, key);
    WithoutCounts(l, key);
  }

  lemma {:induction false} UnexpiredFacts(l: seq<Slot>, now: int)
    requires DistinctKeys(l)
    ensures DistinctKeys(Unexpired(l, now)) && |Unexpired(l, now)| <= |l|
    ensures forall s :: s in Unexpired(l, now) <==> s in l && !IsExpired(s.entry, now)
  {
    if l != [] {
      var t := l[1..];
      UnexpiredFacts(t, now);
      assert l == [l[0]] + t;
      forall s | s in Unexpired(t, now) ensures s.key != l[0].key {
        assert s in t;
      }
    }
  }

  lemma {:induction false} UpdatedFacts(l: seq<Slot>, key: string, entry: CacheEntry)
    requires Lookup(l, key).Some? ==> Lookup(l, key).value.entry.tombstone == entry.tombstone
    requires DistinctKeys(l)
    ensures |Updated(l, key, entry)| == |l| && Tombstones(Updated(l, key, entry)) == Tombstones(l)
    ensures forall i | 0 <= i < |l| ::
              Updated(l, key, entry)[i] == if l[i].key == key then l[i].(entry := entry) else l[i]
  {
    if l != [] {
      var t := l[1..];
      LookupFinds(t, key);
      UpdatedFacts(t, key, entry);
    }
  }

  lemma {:induction false} TombstonesBounded(l: seq<Slot>)
    ensures Tombstones(l) <= |l|
  {
    if l != [] {
      TombstonesBounded(l[1..]);
    }
  }

  lemma {:induction false} TombstonesInit(l: seq<Slot>)
    requires l != []
    ensures Tombstones(l) == Tombstones(l[..|l| - 1]) + if l[|l| - 1].entry.tombstone then 1 else 0
  {
    if |l| > 1 {
      TombstonesInit(l[1..]);
      assert l[1..][..|l| - 2] == l[..|l| - 1][1..];
    }
  }
}
