/**
  Restoring a snapshot into a cache (src/snapshot.cpp with src/cache.cpp): what the cache holds
  afterwards, and in which order.
 */
module Restores {
  import opened Options
  import opened Versions
  import opened LruLists
  import opened CacheRuns
  import opened Caches
  import opened Snapshots
  import opened Words

  type Pairs = seq<(string, VersionedValue)>

  /** Cache::apply for each entry in turn. */
  function AppliedAll(e: Engine, entries: Pairs, now: int): (r: Engine)
    ensures r.capacity == e.capacity && r.tombstoneTtl == e.tombstoneTtl
  {
    if entries == [] then e
    else
      var (key, v) := entries[|entries| - 1];
      CacheRuns.Step(AppliedAll(e, entries[..|entries| - 1], now), Op.Apply(key, v), now)
  }

  /** The entries as list nodes, last one first. */
  function Stacked(entries: Pairs, tombstoneTtl: int, now: int): seq<Slot> {
    if entries == [] then []
    else
      var (key, v) := entries[|entries| - 1];
      [Slot(key, AppliedEntry(v, tombstoneTtl, now), 0)] + Stacked(entries[..|entries| - 1], tombstoneTtl, now)
  }

  ghost predicate DistinctPairs(entries: Pairs) {
    forall i, j | 0 <= i < j < |entries| :: entries[i].0 != entries[j].0
  }

  lemma {:induction false} StackedKeys(entries: Pairs, ttl: int, now: int)
    ensures |Stacked(entries, ttl, now)| == |entries|
    ensures forall i | 0 <= i < |entries| :: Stacked(entries, ttl, now)[i].key == entries[|entries| - 1 - i].0
  {
    if entries != [] {
      StackedKeys(entries[..|entries| - 1], ttl, now);
    }
  }

  /** A new key goes to the front and pushes nothing out while there is room. */
  lemma ApplyNewKey(e: Engine, key: string, v: VersionedValue, now: int)
    requires (forall i | 0 <= i < |e.list| :: e.list[i].key != key) && (e.capacity > 0 ==> |e.list| < e.capacity)
    ensures CacheRuns.Step(e, Op.Apply(key, v), now).list ==
            [Slot(key, AppliedEntry(v, e.tombstoneTtl, now), 0)] + e.list
  {
    LookupFinds(e.list, key);
  }

  lemma NewKey(entries: Pairs, ttl: int, now: int)
    requires DistinctPairs(entries) && entries != []
    ensures var l := Stacked(entries[..|entries| - 1], ttl, now);
      |l| == |entries| - 1 && forall i | 0 <= i < |l| :: l[i].key != entries[|entries| - 1].0
  {
    var n := |entries| - 1;
    StackedKeys(entries[..n], ttl, now);
    var l := Stacked(entries[..n], ttl, now);
    forall i | 0 <= i < |l| ensures l[i].key != entries[n].0 {
      assert l[i].key == entries[..n][n - 1 - i].0;
    }
  }

  /**
    An empty cache with room for them ends up with exactly the restored entries, each stamped with
    its version, and the last one restored is the most recently used.
   */
  lemma {:induction false} RestoreFillsCache(e: Engine, entries: Pairs, now: int)
    requires e.list == [] && DistinctPairs(entries) && (e.capacity > 0 ==> |entries| <= e.capacity)
    ensures AppliedAll(e, entries, now).list == Stacked(entries, e.tombstoneTtl, now)
    decreases |entries|
  {
    if entries != [] {
      var n := |entries| - 1;
      RestoreFillsCache(e, entries[..n], now);
      NewKey(entries, e.tombstoneTtl, now);
      ApplyNewKey(AppliedAll(e, entries[..n], now), entries[n].0, entries[n].1, now);
    }
  }

  lemma {:induction false} ListingDistinct(l: seq<Slot>, now: int)
    requires DistinctKeys(l)
    ensures DistinctPairs(Listing(l, now)) && |Listing(l, now)| <= |l|
    ensures forall i | 0 <= i < |Listing(l, now)| :: exists s :: s in l && s.key == Listing(l, now)[i].0
  {
    if l != [] {
      var t := Listing(l[1..], now);
      ListingDistinct(l[1..], now);
      assert l[0] in l && forall s | s in l[1..] :: s in l;
      forall i | 0 <= i < |t| ensures t[i].0 != l[0].key && exists s :: s in l && s.key == t[i].0 {
        var s :| s in l[1..] && s.key == t[i].0;
        assert s in l;
      }
    }
  }

  /** A snapshot reports live entries with the time they have left, and tombstones with none. */
  lemma {:induction false} ListingShows(l: seq<Slot>, now: int)
    ensures Listed(Listing(l, now))
    ensures forall i | 0 <= i < |Listing(l, now)| :: Listing(l, now)[i].1.tombstone ==> Listing(l, now)[i].1.ttl.None?
  {
    if l != [] {
      ListingShows(l[1..], now);
    }
  }

  lemma {:induction false} AgedDistinct(entries: Pairs, elapsed: int)
    requires DistinctPairs(entries)
    ensures DistinctPairs(AgedAll(entries, elapsed)) && |AgedAll(entries, elapsed)| <= |entries|
    ensures forall r | r in AgedAll(entries, elapsed) :: exists i :: 0 <= i < |entries| && entries[i].0 == r.0
    decreases |entries|
  {
    if entries != [] {
      var n := |entries| - 1;
      var rest := AgedAll(entries[..n], elapsed);
      AgedDistinct(entries[..n], elapsed);
      forall r | r in rest ensures r.0 != entries[n].0 && exists i :: 0 <= i < |entries| && entries[i].0 == r.0 {
        var i :| 0 <= i < n && entries[..n][i].0 == r.0;
        assert entries[i].0 == r.0;
      }
    }
  }

  lemma AgedFillCache(e: Engine, entries: Pairs, elapsed: int, restored: Pairs, now: int)
    requires e.list == [] && DistinctPairs(entries) && (e.capacity > 0 ==> |entries| <= e.capacity)
    requires restored == AgedAll(entries, elapsed)
    ensures AppliedAll(e, restored, now).list == Stacked(AgedAll(entries, elapsed), e.tombstoneTtl, now)
  {
    AgedDistinct(entries, elapsed);
    RestoreFillsCache(e, restored, now);
  }

  lemma LoadedFillCache(e: Engine, entries: Pairs, elapsed: int, file: seq<Saved>, loaded: int, now: int)
    requires e.list == [] && DistinctPairs(entries) && (e.capacity > 0 ==> |entries| <= e.capacity)
    requires RestoredAll(file, loaded) == AgedAll(entries, elapsed)
    ensures AppliedAll(e, RestoredAll(file, loaded), now).list ==
            Stacked(AgedAll(entries, elapsed), e.tombstoneTtl, now)
  {
    AgedFillCache(e, entries, elapsed, RestoredAll(file, loaded), now);
  }

  lemma PairsComeBack(entries: Pairs, saved: int, e: Engine, loaded: int, now: int)
    requires e.list == [] && DistinctPairs(entries) && (e.capacity > 0 ==> |entries| <= e.capacity)
    requires saved >= 0 && |entries| < WORD && Listed(entries) && AllStorable(SavedAll(entries, saved))
    ensures var file := Decode(File(SavedAll(entries, saved)));
      && file.Some?
      && AppliedAll(e, RestoredAll(file.value, loaded), now).list ==
         Stacked(AgedAll(entries, loaded - saved), e.tombstoneTtl, now)
  {
    LoadedIsAged(entries, saved, loaded);
    LoadedFillCache(e, entries, loaded - saved, Decode(File(SavedAll(entries, saved))).value, loaded, now);
  }

  /**
    A cache saved at one time and loaded at another: the entries still alive, with what is left of
    their TTL, in reverse order of use.
   */
  lemma SavedCacheComesBack(l: seq<Slot>, at: int, saved: int, e: Engine, loaded: int, now: int)
    requires DistinctKeys(l) && e.list == [] && (e.capacity > 0 ==> |l| <= e.capacity)
    requires saved >= 0 && |l| < WORD && AllStorable(SavedAll(Listing(l, at), saved))
    ensures var file := Decode(File(SavedAll(Listing(l, at), saved)));
      && file.Some?
      && AppliedAll(e, RestoredAll(file.value, loaded), now).list ==
         Stacked(AgedAll(Listing(l, at), loaded - saved), e.tombstoneTtl, now)
  {
    ListingDistinct(l, at);
    ListingShows(l, at);
    PairsComeBack(Listing(l, at), saved, e, loaded, now);
  }

  predicate ShortSlot(s: Slot) {
    Short(s.key, s.entry.value)
  }

  lemma StepShort(e: Engine, key: string, v: VersionedValue, now: int)
    requires (forall s | s in e.list :: ShortSlot(s)) && Short(key, v.value)
    ensures forall s | s in CacheRuns.Step(e, Op.Apply(key, v), now).list :: ShortSlot(s)
  {
    WithoutElements(e.list, key);
    LookupFinds(e.list, key);
  }

  lemma {:induction false} AppliedShort(e: Engine, entries: Pairs, now: int)
    requires e.list == [] && forall r | r in entries :: Short(r.0, r.1.value)
    ensures forall s | s in AppliedAll(e, entries, now).list :: ShortSlot(s)
    decreases |entries|
  {
    if entries != [] {
      var n := |entries| - 1;
      AppliedShort(e, entries[..n], now);
      assert entries[n] in entries;
      StepShort(AppliedAll(e, entries[..n], now), entries[n].0, entries[n].1, now);
    }
  }

  lemma {:induction false} StackedShort(entries: Pairs, ttl: int, now: int)
    requires forall s | s in Stacked(entries, ttl, now) :: ShortSlot(s)
    ensures forall r | r in entries :: Short(r.0, r.1.value)
    decreases |entries|
  {
    if entries != [] {
      var n := |entries| - 1;
      var l := Stacked(entries, ttl, now);
      assert l[0] in l && ShortSlot(l[0]);
      assert l[1..] == Stacked(entries[..n], ttl, now);
      StackedShort(entries[..n], ttl, now);
      assert entries == entries[..n] + [entries[n]];
    }
  }

  /** The file is accepted and the new cache holds every entry of the old one. */
  ghost predicate RestoresAll(entries: Pairs, e: Engine, unixMs: int, now: int)
    requires AllWritable(SavedAll(entries, unixMs))
  {
    var file := Decode(File(SavedAll(entries, unixMs)));
    file.Some? && AppliedAll(e, RestoredAll(file.value, unixMs), now).list == Stacked(entries, e.tombstoneTtl, now)
  }

  lemma {:induction false} AllAged(entries: Pairs)
    requires |AgedAll(entries, 0)| == |entries|
    ensures forall i | 0 <= i < |entries| :: entries[i].1.ttl.Some? ==> entries[i].1.ttl.value >= 1
    decreases |entries|
  {
    if entries != [] {
      var n := |entries| - 1;
      AgedShorter(entries[..n], 0);
      AllAged(entries[..n]);
    }
  }

  lemma RestoresAllShort(entries: Pairs, e: Engine, unixMs: int, now: int)
    requires e.list == [] && AllWritable(SavedAll(entries, unixMs)) && RestoresAll(entries, e, unixMs, now)
    ensures AllStorable(SavedAll(entries, unixMs))
  {
    var es := SavedAll(entries, unixMs);
    LoadedShort(es, unixMs);
    AppliedShort(e, RestoredAll(Decode(File(es)).value, unixMs), now);
    StackedShort(entries, e.tombstoneTtl, now);
    forall i | 0 <= i < |es| ensures Storable(es[i]) {
      assert entries[i] in entries;
    }
  }

  /**
    A cache saved and loaded at the same moment comes back whole, in reverse order of use, if and
    only if every string is shorter than 4 GiB and every TTL has a millisecond left.
   */
  lemma SavedCacheExactly(l: seq<Slot>, e: Engine, unixMs: int, now: int)
    requires DistinctKeys(l) && e.list == [] && (e.capacity > 0 ==> |l| <= e.capacity)
    requires unixMs >= 0 && |l| < WORD && AllWritable(SavedAll(Listing(l, now), unixMs))
    ensures RestoresAll(Listing(l, now), e, unixMs, now) <==>
            AllStorable(SavedAll(Listing(l, now), unixMs)) && AllLasting(Listing(l, now))
  {
    var entries := Listing(l, now);
    ListingShows(l, now);
    UnchangedExactly(entries);
    if RestoresAll(entries, e, unixMs, now) {
      RestoresAllShort(entries, e, unixMs, now);
    }
    if AllStorable(SavedAll(entries, unixMs)) {
      SavedCacheComesBack(l, now, unixMs, e, unixMs, now);
      if RestoresAll(entries, e, unixMs, now) {
        StackedKeys(entries, e.tombstoneTtl, now);
        StackedKeys(AgedAll(entries, 0), e.tombstoneTtl, now);
        AllAged(entries);
      }
    }
  }

  /** load_snapshot into a cache: all of a valid file, or nothing of an invalid one. */
  method LoadInto(cache: Cache, buf: string, unixMs: int, now: int) returns (ok: bool)
    requires cache.Valid()
    modifies cache, cache.lruList
    ensures cache.Valid() && (ok <==> Decode(buf).Some?)
    ensures !ok ==> cache.E() == old(cache.E())
    ensures ok ==> cache.Holds(AppliedAll(old(cache.E()), RestoredAll(Decode(buf).value, unixMs), now))
  {
    var entries;
    ok, entries := Load(buf, unixMs);
    if ok {
      ApplyEach(cache, entries, now);
    }
  }

  method ApplyEach(cache: Cache, entries: Pairs, now: int)
    requires cache.Valid()
    modifies cache, cache.lruList
    ensures cache.Valid() && cache.Holds(AppliedAll(old(cache.E()), entries, now))
  {
    for i := 0 to |entries|
      invariant cache.Valid() && cache.Holds(AppliedAll(old(cache.E()), entries[..i], now))
      invariant forall m | m in cache.lruList :: m in old(cache.lruList) || fresh(m)
    {
      assert entries[..i + 1][..i] == entries[..i];
      var (key, v) := entries[i];
      SameStoreSteps(AppliedAll(old(cache.E()), entries[..i], now), cache.E(), key, v, now);
      var changed, live := cache.Apply(key, v, now);
    }
    assert entries[..|entries|] == entries;
  }

  /** History plays no part in what apply() stores. */
  lemma SameStoreSteps(a: Engine, b: Engine, key: string, v: VersionedValue, now: int)
    requires a.list == b.list && a.tombstones == b.tombstones && a.capacity == b.capacity &&
             a.tombstoneTtl == b.tombstoneTtl
    ensures var x, y := CacheRuns.Step(a, Op.Apply(key, v), now), CacheRuns.Step(b, Op.Apply(key, v), now);
      x.list == y.list && x.tombstones == y.tombstones
  {
  }
}
