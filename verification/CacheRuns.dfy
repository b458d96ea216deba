/** Every sequence of cache operations (src/cache.cpp): structure, counters, capacity, eviction order. */
module CacheRuns {
  import opened Options
  import opened Versions
  import opened LruLists

  datatype Op =
    | Set(key: string, value: string, ttlMs: Option<int>)
    | Read(key: string, at: int)
    | Promote(key: string, at: int)
    | Apply(key: string, v: VersionedValue)
    | Remove(key: string)
    | Expire(key: string, ttl: int)
    | Purge
    | Clear

  /**
    The cache, with three history variables: when each key was last accessed (get hit, promotion,
    set, effective apply), when it was last placed at the front of the list, and the hits still
    waiting to be promoted.  A get that promotes does so in a second locked section, which other
    operations may come before.
   */
  datatype Engine = Engine(
    capacity: nat, tombstoneTtl: int, list: seq<Slot>, tombstones: int,
    clock: int, access: map<string, int>, placed: map<string, int>, waiting: multiset<(string, int)>)

  function Weight(s: Option<Slot>): int {
    if s.Some? && s.value.entry.tombstone then 1 else 0
  }

  /** The entry a new key pushes out. */
  function Victim(l: seq<Slot>, capacity: nat): Option<Slot> {
    if capacity > 0 && |l| >= capacity && l != [] then Some(l[|l| - 1]) else None
  }

  /** Stores an entry at the front and adjusts the counter the way the source does. */
  function Store(e: Engine, key: string, entry: CacheEntry, now: int): Engine {
    var gone := if Lookup(e.list, key).Some? then Lookup(e.list, key) else Victim(e.list, e.capacity);
    e.(list := Put(e.list, e.capacity, key, entry),
       tombstones := e.tombstones - Weight(gone) + (if entry.tombstone then 1 else 0),
       access := e.access[key := now], placed := e.placed[key := now])
  }

  function Erase(e: Engine, key: string): Engine {
    e.(list := Without(e.list, key), tombstones := e.tombstones - Weight(Lookup(e.list, key)))
  }

  function Later(m: map<string, int>, key: string, at: int): int {
    if key in m && at < m[key] then m[key] else at
  }

  /** get() under the shared lock: a hit too soon after the last promotion ends here. */
  function DoRead(e: Engine, key: string, at: int): Engine {
    if !Hit(e.list, key, at) then e
    else
      e.(access := e.access[key := Later(e.access, key, at)],
         waiting := e.waiting + if Promotes(Lookup(e.list, key).value, at) then multiset{(key, at)} else multiset{})
  }

  /** get() under the exclusive lock, for whatever entry the key has by then. */
  function DoPromote(e: Engine, key: string, at: int, now: int): Engine {
    var t := e.(waiting := e.waiting - multiset{(key, at)});
    if Lookup(e.list, key).None? then t
    else t.(list := Promoted(e.list, key, at), access := e.access[key := now], placed := e.placed[key := now])
  }

  function DoExpire(e: Engine, key: string, ttl: int, now: int): Engine {
    var s := Lookup(e.list, key);
    if s.None? || s.value.entry.tombstone then e
    else if IsExpired(s.value.entry, now) then Erase(e, key)
    else e.(list := Updated(e.list, key, s.value.entry.(expiresAt := Some(now + ttl * TICKS_PER_MS))))
  }

  function Step(e: Engine, op: Op, now: int): Engine {
    var t := e.(clock := now);
    match op
    case Set(key, value, ttl) => Store(t, key, CacheEntry(value, Expiry(now, ttl), 0, false), now)
    case Read(key, at) => DoRead(t, key, at)
    case Promote(key, at) => DoPromote(t, key, at, now)
    case Apply(key, v) =>
      if Accepts(t.list, key, v, now) then Store(t, key, AppliedEntry(v, t.tombstoneTtl, now), now) else t
    case Remove(key) => Erase(t, key)
    case Expire(key, ttl) => DoExpire(t, key, ttl, now)
    case Purge =>
      var kept := Unexpired(t.list, now);
      t.(list := kept, tombstones := t.tombstones - (Tombstones(t.list) - Tombstones(kept)))
    case Clear => t.(list := [], tombstones := 0)
  }

  /** A get carries the clock reading it started with, and promotes only what it hit. */
  predicate Possible(e: Engine, op: Op, now: int) {
    && e.clock <= now
    && (op.Read? ==> op.at <= now)
    && (op.Promote? ==> (op.key, op.at) in e.waiting)
  }

  ghost predicate CanStep(e: Engine, e': Engine) {
    exists op, now :: Possible(e, op, now) && e' == Step(e, op, now)
  }

  /** The i-th state is followed by one that it can step to. */
  ghost predicate Follows(trace: seq<Engine>, i: nat)
    requires i < |trace| - 1
  {
    CanStep(trace[i], trace[i + 1])
  }

  ghost predicate IsRun(trace: seq<Engine>) {
    && |trace| > 0 && trace[0].list == [] && trace[0].tombstones == 0 && trace[0].waiting == multiset{}
    && forall i | 0 <= i < |trace| - 1 :: Follows(trace, i)
  }

  // ---------- structure ----------

  /** Keys are distinct, the counter counts the tombstones, and the capacity is kept. */
  ghost predicate Sound(e: Engine) {
    && DistinctKeys(e.list) && e.tombstones == Tombstones(e.list)
    && (e.capacity > 0 ==> |e.list| <= e.capacity)
  }

  lemma FrontDistinct(s: Slot, l: seq<Slot>)
    requires DistinctKeys(l) && forall t | t in l :: t.key != s.key
    ensures DistinctKeys([s] + l)
  {
  }

  lemma PutSound(l: seq<Slot>, capacity: nat, key: string, entry: CacheEntry)
    requires DistinctKeys(l) && (capacity > 0 ==> |l| <= capacity)
    ensures var l' := Put(l, capacity, key, entry);
      && DistinctKeys(l') && (capacity > 0 ==> |l'| <= capacity)
      && Tombstones(l') == Tombstones(l) + (if entry.tombstone then 1 else 0)
           - Weight(if Lookup(l, key).Some? then Lookup(l, key) else Victim(l, capacity))
  {
    var l' := Put(l, capacity, key, entry);
    LookupFinds(l, key);
    if Lookup(l, key).Some? {
      WithoutFacts(l, key);
      FrontDistinct(l'[0], Without(l, key));
      assert l'[1..] == Without(l, key);
    } else {
      var rest := MakeRoom(l, capacity);
      if capacity > 0 && |l| >= capacity {
        TombstonesInit(l);
      }
      FrontDistinct(l'[0], rest);
      assert l'[1..] == rest;
    }
  }

  lemma PromoteSound(l: seq<Slot>, key: string, now: int)
    requires DistinctKeys(l)
    ensures DistinctKeys(Promoted(l, key, now)) && |Promoted(l, key, now)| == |l|
    ensures Tombstones(Promoted(l, key, now)) == Tombstones(l)
  {
    if Lookup(l, key).Some? {
      LookupFinds(l, key);
      WithoutFacts(l, key);
      var s := Lookup(l, key).value.(lastPromoted := now);
      FrontDistinct(s, Without(l, key));
      assert ([s] + Without(l, key))[1..] == Without(l, key);
    }
  }

  lemma ExpireSound(e: Engine, key: string, ttl: int, now: int)
    requires Sound(e)
    ensures Sound(DoExpire(e, key, ttl, now))
  {
    var s := Lookup(e.list, key);
    if s.Some? && !s.value.entry.tombstone {
      if IsExpired(s.value.entry, now) {
        WithoutFacts(e.list, key);
      } else {
        UpdatedFacts(e.list, key, s.value.entry.(expiresAt := Some(now + ttl * TICKS_PER_MS)));
      }
    }
  }

  lemma StepSound(e: Engine, op: Op, now: int)
    requires Sound(e)
    ensures Sound(Step(e, op, now))
  {
    match op
    case Set(key, value, ttl) => PutSound(e.list, e.capacity, key, CacheEntry(value, Expiry(now, ttl), 0, false));
    case Read(key, at) =>
    case Promote(key, at) => PromoteSound(e.list, key, at);
    case Apply(key, v) => PutSound(e.list, e.capacity, key, AppliedEntry(v, e.tombstoneTtl, now));
    case Remove(key) => WithoutFacts(e.list, key);
    case Expire(key, ttl) => ExpireSound(e.(clock := now), key, ttl, now);
    case Purge => UnexpiredFacts(e.list, now);
    case Clear =>
  }

  // ---------- order ----------

  type Hits = multiset<(string, int)>

  predicate SlotTimes(s: Slot, access: map<string, int>, placed: map<string, int>, waiting: Hits, clock: int) {
    && s.key in access && s.key in placed
    && placed[s.key] <= access[s.key] <= clock
    && (access[s.key] < placed[s.key] + PROMOTE_INTERVAL || (s.key, access[s.key]) in waiting)
    && (s.lastPromoted != 0 ==> s.lastPromoted <= placed[s.key])
  }

  /** Placed no earlier than everything behind it. */
  predicate Descending(l: seq<Slot>, placed: map<string, int>) {
    l == [] ||
    (Descending(l[1..], placed) &&
     forall s | s in l[1..] :: l[0].key in placed && s.key in placed && placed[s.key] <= placed[l[0].key])
  }

  ghost predicate AllTimes(l: seq<Slot>, access: map<string, int>, placed: map<string, int>, waiting: Hits,
                           clock: int) {
    forall s | s in l :: SlotTimes(s, access, placed, waiting, clock)
  }

  /**
    The list is ordered by time of placement, and no access is an interval younger than that,
    except for a hit still waiting for its promotion.
   */
  ghost predicate Timed(e: Engine) {
    && AllTimes(e.list, e.access, e.placed, e.waiting, e.clock) && Descending(e.list, e.placed)
    && forall w | w in e.waiting :: w.1 <= e.clock
  }

  lemma {:induction false} DescendingWithout(l: seq<Slot>, key: string, placed: map<string, int>)
    requires Descending(l, placed) && DistinctKeys(l)
    ensures Descending(Without(l, key), placed)
  {
    if l != [] {
      DescendingWithout(l[1..], key, placed);
      WithoutFacts(l[1..], key);
      assert ([l[0]] + Without(l[1..], key))[1..] == Without(l[1..], key);
    }
  }

  lemma {:induction false} DescendingUnexpired(l: seq<Slot>, now: int, placed: map<string, int>)
    requires Descending(l, placed) && DistinctKeys(l)
    ensures Descending(Unexpired(l, now), placed)
  {
    if l != [] {
      DescendingUnexpired(l[1..], now, placed);
      UnexpiredFacts(l[1..], now);
      assert [] + Unexpired(l[1..], now) == Unexpired(l[1..], now);
      assert ([l[0]] + Unexpired(l[1..], now))[1..] == Unexpired(l[1..], now);
    }
  }

  lemma {:induction false} DescendingKeys(l: seq<Slot>, l': seq<Slot>, placed: map<string, int>)
    requires Descending(l, placed) && |l| == |l'| && forall i | 0 <= i < |l| :: l[i].key == l'[i].key
    ensures Descending(l', placed)
    decreases |l|
  {
    if l != [] {
      DescendingKeys(l[1..], l'[1..], placed);
      forall s | s in l'[1..] ensures l'[0].key in placed && s.key in placed && placed[s.key] <= placed[l'[0].key] {
        var i :| 0 <= i < |l'[1..]| && l'[1..][i] == s;
        assert l[1..][i] in l[1..];
      }
    }
  }

  lemma {:induction false} DescendingAgree(l: seq<Slot>, placed: map<string, int>, placed': map<string, int>)
    requires Descending(l, placed)
    requires forall s | s in l && s.key in placed :: s.key in placed' && placed'[s.key] == placed[s.key]
    ensures Descending(l, placed')
  {
    if l != [] {
      assert forall s | s in l[1..] :: s in l;
      DescendingAgree(l[1..], placed, placed');
    }
  }

  lemma {:induction false} DescendingInit(l: seq<Slot>, placed: map<string, int>)
    requires Descending(l, placed) && l != []
    ensures Descending(l[..|l| - 1], placed)
    ensures forall s | s in l && |l| > 1 ::
              s.key in placed && l[|l| - 1].key in placed && placed[l[|l| - 1].key] <= placed[s.key]
    decreases |l|
  {
    if |l| > 1 {
      DescendingInit(l[1..], placed);
      assert l[..|l| - 1][1..] == l[1..][..|l| - 2];
      assert l[|l| - 1] == l[1..][|l| - 2] && l[|l| - 1] in l[1..];
      forall s | s in l[..|l| - 1][1..] ensures s in l[1..] {
      }
      forall s | s in l ensures s == l[0] || s in l[1..] {
        assert l == [l[0]] + l[1..];
      }
    }
  }

  /** A slot placed now goes in front of slots placed before. */
  lemma FrontTimed(s: Slot, rest: seq<Slot>, access: map<string, int>, placed: map<string, int>, waiting: Hits,
                   clock: int)
    requires AllTimes(rest, access, placed, waiting, clock) && Descending(rest, placed)
    requires forall t | t in rest :: t.key != s.key
    requires s.lastPromoted != 0 ==> s.lastPromoted <= clock
    ensures AllTimes([s] + rest, access[s.key := clock], placed[s.key := clock], waiting, clock)
    ensures Descending([s] + rest, placed[s.key := clock])
  {
    DescendingAgree(rest, placed, placed[s.key := clock]);
    assert ([s] + rest)[1..] == rest;
  }

  lemma PutTimed(e: Engine, key: string, entry: CacheEntry, now: int)
    requires Sound(e) && Timed(e) && now == e.clock
    ensures Timed(Store(e, key, entry, now))
  {
    LookupFinds(e.list, key);
    if Lookup(e.list, key).Some? {
      WithoutFacts(e.list, key);
      DescendingWithout(e.list, key, e.placed);
      assert SlotTimes(Lookup(e.list, key).value, e.access, e.placed, e.waiting, e.clock);
      FrontTimed(Lookup(e.list, key).value.(entry := entry), Without(e.list, key), e.access, e.placed, e.waiting, now);
    } else {
      var rest := MakeRoom(e.list, e.capacity);
      if rest != e.list {
        DescendingInit(e.list, e.placed);
      }
      assert forall t | t in rest :: t in e.list;
      FrontTimed(Slot(key, entry, 0), rest, e.access, e.placed, e.waiting, now);
    }
  }

  lemma ReadTimed(e: Engine, key: string, at: int)
    requires Sound(e) && Timed(e) && at <= e.clock
    ensures Timed(DoRead(e, key, at))
  {
    if Hit(e.list, key, at) {
      var e' := DoRead(e, key, at);
      LookupFinds(e.list, key);
      forall s | s in e.list ensures SlotTimes(s, e'.access, e'.placed, e'.waiting, e'.clock) {
        assert SlotTimes(s, e.access, e.placed, e.waiting, e.clock);
        if s.key == key {
          var i :| 0 <= i < |e.list| && e.list[i] == s;
          LookupAt(e.list, i);
        }
      }
    }
  }

  lemma PromoteTimed(e: Engine, key: string, at: int)
    requires Sound(e) && Timed(e) && (key, at) in e.waiting
    ensures Timed(DoPromote(e, key, at, e.clock))
  {
    var waiting := e.waiting - multiset{(key, at)};
    LookupFinds(e.list, key);
    WithoutFacts(e.list, key);
    DescendingWithout(e.list, key, e.placed);
    forall s | s in e.list && s.key != key ensures SlotTimes(s, e.access, e.placed, waiting, e.clock) {
      assert SlotTimes(s, e.access, e.placed, e.waiting, e.clock);
    }
    if Lookup(e.list, key).Some? {
      var s := Lookup(e.list, key).value.(lastPromoted := at);
      FrontTimed(s, Without(e.list, key), e.access, e.placed, waiting, e.clock);
    }
  }

  lemma UpdatedTimed(e: Engine, key: string, entry: CacheEntry)
    requires Sound(e) && Timed(e) && Lookup(e.list, key).Some?
    requires entry.tombstone == Lookup(e.list, key).value.entry.tombstone
    ensures Timed(e.(list := Updated(e.list, key, entry)))
  {
    var l' := Updated(e.list, key, entry);
    UpdatedFacts(e.list, key, entry);
    DescendingKeys(e.list, l', e.placed);
    forall t | t in l' ensures SlotTimes(t, e.access, e.placed, e.waiting, e.clock) {
      var i :| 0 <= i < |l'| && l'[i] == t;
      assert SlotTimes(e.list[i], e.access, e.placed, e.waiting, e.clock);
    }
  }

  lemma ExpireTimed(e: Engine, key: string, ttl: int, now: int)
    requires Sound(e) && Timed(e)
    ensures Timed(DoExpire(e, key, ttl, now))
  {
    var s := Lookup(e.list, key);
    if s.Some? && !s.value.entry.tombstone {
      if IsExpired(s.value.entry, now) {
        WithoutFacts(e.list, key);
        DescendingWithout(e.list, key, e.placed);
      } else {
        UpdatedTimed(e, key, s.value.entry.(expiresAt := Some(now + ttl * TICKS_PER_MS)));
      }
    }
  }

  lemma StepTimed(e: Engine, op: Op, now: int)
    requires Sound(e) && Timed(e) && Possible(e, op, now)
    ensures Timed(Step(e, op, now))
  {
    var t := e.(clock := now);
    assert Sound(t) && Timed(t);
    match op
    case Set(key, value, ttl) => PutTimed(t, key, CacheEntry(value, Expiry(now, ttl), 0, false), now);
    case Read(key, at) => ReadTimed(t, key, at);
    case Promote(key, at) => PromoteTimed(t, key, at);
    case Apply(key, v) => PutTimed(t, key, AppliedEntry(v, e.tombstoneTtl, now), now);
    case Remove(key) =>
      WithoutFacts(e.list, key);
      DescendingWithout(e.list, key, e.placed);
    case Expire(key, ttl) => ExpireTimed(t, key, ttl, now);
    case Purge =>
      UnexpiredFacts(e.list, now);
      DescendingUnexpired(e.list, now, e.placed);
    case Clear =>
  }

  lemma CanStepKeeps(e: Engine, e': Engine)
    requires CanStep(e, e') && Sound(e) && Timed(e)
    ensures Sound(e') && Timed(e')
  {
    var op, now :| Possible(e, op, now) && e' == Step(e, op, now);
    StepSound(e, op, now);
    StepTimed(e, op, now);
  }

  lemma {:induction false} RunInv(trace: seq<Engine>, n: nat)
    requires IsRun(trace) && n < |trace|
    ensures Sound(trace[n]) && Timed(trace[n])
  {
    if n > 0 {
      RunInv(trace, n - 1);
      assert Follows(trace, n - 1);
      CanStepKeeps(trace[n - 1], trace[n]);
    }
  }

  /**
    Over every run: distinct keys, an exact tombstone counter (so size() never underflows), and a
    positive capacity never exceeded.
   */
  lemma StructureKept(trace: seq<Engine>, n: nat)
    requires IsRun(trace) && n < |trace|
    ensures DistinctKeys(trace[n].list)
    ensures 0 <= trace[n].tombstones == Tombstones(trace[n].list) <= |trace[n].list|
    ensures trace[n].capacity > 0 ==> |trace[n].list| <= trace[n].capacity
  {
    RunInv(trace, n);
    TombstonesBounded(trace[n].list);
  }

  /** The last access of `key` is a hit whose promotion has yet to come. */
  predicate Awaits(e: Engine, key: string) {
    key in e.access && (key, e.access[key]) in e.waiting
  }

  /**
    Over every run with a non-decreasing clock: an entry is evicted only if its last access is
    earlier than any survivor's last access plus the promotion interval, or is a hit of a get that
    is still waiting to promote it.
   */
  lemma EvictionIsNearlyLru(trace: seq<Engine>, n: nat, survivor: Slot)
    requires IsRun(trace) && n < |trace| && survivor in trace[n].list
    requires Victim(trace[n].list, trace[n].capacity).Some?
    requires survivor != Victim(trace[n].list, trace[n].capacity).value
    ensures var e, victim := trace[n], Victim(trace[n].list, trace[n].capacity).value;
      && victim.key in e.access && survivor.key in e.access
      && (e.access[victim.key] < e.access[survivor.key] + PROMOTE_INTERVAL || Awaits(e, victim.key))
  {
    RunInv(trace, n);
    var e := trace[n];
    var victim := e.list[|e.list| - 1];
    assert victim in e.list;
    DescendingInit(e.list, e.placed);
    assert SlotTimes(victim, e.access, e.placed, e.waiting, e.clock);
    assert SlotTimes(survivor, e.access, e.placed, e.waiting, e.clock);
  }

  // ---------- the bound is exact ----------

  ghost predicate Reach(e: Engine) {
    exists trace :: IsRun(trace) && trace[|trace| - 1] == e
  }

  lemma Extend(e: Engine, op: Op, now: int)
    requires Reach(e) && Possible(e, op, now)
    ensures Reach(Step(e, op, now))
  {
    var trace :| IsRun(trace) && trace[|trace| - 1] == e;
    var t := trace + [Step(e, op, now)];
    forall i | 0 <= i < |t| - 1 ensures Follows(t, i) {
      if i < |trace| - 1 {
        assert Follows(trace, i);
      } else {
        assert CanStep(t[i], t[i + 1]);
      }
    }
    assert IsRun(t) && t[|t| - 1] == Step(e, op, now);
  }

  /** An entry about to be evicted was accessed `gap` ticks after one that stays. */
  ghost predicate Overtakes(e: Engine, survivor: Slot, gap: int) {
    var victim := Victim(e.list, e.capacity);
    && victim.Some? && survivor in e.list && survivor != victim.value
    && victim.value.key in e.access && survivor.key in e.access
    && e.access[victim.value.key] == e.access[survivor.key] + gap
  }

  function Fresh(): Engine {
    Engine(2, 0, [], 0, 1, map[], map[], multiset{})
  }

  function Plain(key: string): Slot {
    Slot(key, CacheEntry("", None, 0, false), 0)
  }

  lemma FreshReached()
    ensures Reach(Fresh())
  {
    assert IsRun([Fresh()]);
  }

  lemma OneSlot(s: Slot, key: string)
    ensures Lookup([s], key) == if s.key == key then Some(s) else None
    ensures Without([s], s.key) == []
  {
    assert [s][1..] == [];
  }

  lemma TwoSlots(a: Slot, b: Slot)
    requires a.key != b.key
    ensures Lookup([a, b], b.key) == Some(b)
  {
    OneSlot(b, b.key);
    assert [a, b][1..] == [b];
  }

  lemma StoredFirst() returns (e: Engine)
    ensures Reach(e) && e == Fresh().(list := [Plain("a")], access := map["a" := 1], placed := map["a" := 1])
  {
    FreshReached();
    e := Step(Fresh(), Set("a", "", None), 1);
    Extend(Fresh(), Set("a", "", None), 1);
    assert [Plain("a")] + [] == [Plain("a")];
  }

  /** "a" is stored, read and promoted at once. */
  lemma PromotedFirst() returns (e: Engine)
    ensures Reach(e) && e.capacity == 2 && e.clock == 1 && e.waiting == multiset{} && e.access == map["a" := 1]
    ensures e.list == [Plain("a").(lastPromoted := 1)]
  {
    var e1 := StoredFirst();
    OneSlot(Plain("a"), "a");
    var e2 := Step(e1, Read("a", 1), 1);
    Extend(e1, Read("a", 1), 1);
    e := Step(e2, Promote("a", 1), 1);
    Extend(e2, Promote("a", 1), 1);
  }

  /** Then "b" is stored. */
  lemma PromotedThenOther(at: int) returns (e: Engine)
    requires at >= 1
    ensures Reach(e) && e.capacity == 2 && e.clock == at && e.waiting == multiset{}
    ensures e.list == [Plain("b"), Plain("a").(lastPromoted := 1)]
    ensures e.access == map["a" := 1, "b" := at]
  {
    var e1 := PromotedFirst();
    OneSlot(e1.list[0], "b");
    e := Step(e1, Set("b", "", None), at);
    Extend(e1, Set("b", "", None), at);
  }

  /** A run that evicts an entry used `gap` ticks after one that stays. */
  lemma GapReached(gap: int) returns (e: Engine, survivor: Slot)
    requires gap < PROMOTE_INTERVAL
    ensures Reach(e) && Overtakes(e, survivor, gap) && e.waiting == multiset{}
  {
    var stored, at := if gap < 0 then 1 - gap else 1, if gap < 0 then 1 else 1 + gap;
    var now := if gap < 0 then stored else at;
    var e1 := PromotedThenOther(stored);
    survivor := Plain("b");
    TwoSlots(e1.list[0], e1.list[1]);
    e := Step(e1, Read("a", at), now);
    Extend(e1, Read("a", at), now);
    assert e.list[0] in e.list;
  }

  lemma StoredBoth() returns (e: Engine)
    ensures Reach(e) && e.capacity == 2 && e.clock == 1 && e.list == [Plain("b"), Plain("a")]
    ensures e.access == map["a" := 1, "b" := 1]
  {
    var e1 := StoredFirst();
    OneSlot(Plain("a"), "b");
    e := Step(e1, Set("b", "", None), 1);
    Extend(e1, Set("b", "", None), 1);
  }

  /** While a hit waits for its promotion, the gap has no bound. */
  lemma WaitingGapReached(gap: nat) returns (e: Engine, survivor: Slot)
    ensures Reach(e) && Overtakes(e, survivor, gap) && Awaits(e, Victim(e.list, e.capacity).value.key)
  {
    var e2 := StoredBoth();
    TwoSlots(Plain("b"), Plain("a"));
    survivor := Plain("b");
    e := Step(e2, Read("a", 1 + gap), 1 + gap);
    Extend(e2, Read("a", 1 + gap), 1 + gap);
    assert e.list[0] in e.list;
  }

  /** Some run evicts an entry last used `gap` ticks after one that stays, with no hit of it waiting. */
  ghost predicate LruGap(gap: int) {
    exists e, survivor :: Reach(e) && Overtakes(e, survivor, gap) && !Awaits(e, Victim(e.list, e.capacity).value.key)
  }

  /** Eviction strays from strict LRU by every gap below the promotion interval and by no other. */
  lemma LruGapExactly(gap: int)
    ensures LruGap(gap) <==> gap < PROMOTE_INTERVAL
  {
    if gap < PROMOTE_INTERVAL {
      var e, survivor := GapReached(gap);
    }
    if e, survivor :| Reach(e) && Overtakes(e, survivor, gap) && !Awaits(e, Victim(e.list, e.capacity).value.key) {
      var trace :| IsRun(trace) && trace[|trace| - 1] == e;
      EvictionIsNearlyLru(trace, |trace| - 1, survivor);
    }
  }

  // ---------- last-writer-wins ----------

  /** What a replica would answer for `key`, while its entry has not expired. */
  function TagAt(l: seq<Slot>, key: string): Option<Tag> {
    var s := Lookup(l, key);
    if s.None? then None else Some(EntryTag(s.value.entry))
  }

  /** Unless the stored entry has expired, apply() merges by last-writer-wins. */
  lemma ApplyIsMerge(e: Engine, key: string, v: VersionedValue, now: int)
    requires Lookup(e.list, key).Some? ==> !IsExpired(Lookup(e.list, key).value.entry, now)
    ensures TagAt(Step(e, Apply(key, v), now).list, key) == Merge(TagAt(e.list, key), ValueTag(v))
  {
    LookupFinds(e.list, key);
  }

  // ---------- convergence ----------

  lemma LookupIs(l: seq<Slot>, s: Slot)
    requires DistinctKeys(l) && s in l
    ensures Lookup(l, s.key) == Some(s)
  {
    var i :| 0 <= i < |l| && l[i] == s;
    LookupAt(l, i);
  }

  /** The entry of `key` in the two lists carries the same tag, or neither list has one. */
  ghost predicate SameTag(l: seq<Slot>, l': seq<Slot>, key: string) {
    && (forall s | s in l && s.key == key ::
          exists s' :: s' in l' && s'.key == key && EntryTag(s'.entry) == EntryTag(s.entry))
    && ((exists s' :: s' in l' && s'.key == key) ==> exists s :: s in l && s.key == key)
  }

  lemma SameTagAt(l: seq<Slot>, l': seq<Slot>, key: string)
    requires DistinctKeys(l) && DistinctKeys(l') && SameTag(l, l', key)
    ensures TagAt(l', key) == TagAt(l, key)
  {
    LookupFinds(l, key);
    LookupFinds(l', key);
    if Lookup(l, key).Some? {
      var s := Lookup(l, key).value;
      var s' :| s' in l' && s'.key == key && EntryTag(s'.entry) == EntryTag(s.entry);
      LookupIs(l', s');
    }
  }

  /** `op` leaves the entry of `key` alone, or applies to it: it is not overwritten, removed, expired or evicted. */
  predicate Undisturbed(e: Engine, op: Op, now: int, key: string) {
    && !op.Clear? && (op.Set? || op.Remove? ==> op.key != key)
    && (Lookup(e.list, key).Some? ==> !IsExpired(Lookup(e.list, key).value.entry, now))
    && ((op.Set? || op.Apply?) && Lookup(e.list, op.key).None? && Victim(e.list, e.capacity).Some? ==>
          Victim(e.list, e.capacity).value.key != key)
  }

  lemma FrontKeeps(l: seq<Slot>, front: Slot, rest: seq<Slot>, other: string)
    requires front.key != other && forall s: Slot | s.key == other :: s in rest <==> s in l
    ensures SameTag(l, [front] + rest, other)
  {
  }

  lemma RoomKeeps(l: seq<Slot>, capacity: nat, other: string)
    requires Victim(l, capacity).Some? ==> Victim(l, capacity).value.key != other
    ensures forall s: Slot | s.key == other :: s in MakeRoom(l, capacity) <==> s in l
  {
    forall s | s in l && s.key == other ensures s in MakeRoom(l, capacity) {
      var i :| 0 <= i < |l| && l[i] == s;
    }
  }

  lemma PutKeepsOthers(l: seq<Slot>, capacity: nat, key: string, entry: CacheEntry, other: string)
    requires DistinctKeys(l) && key != other
    requires Lookup(l, key).None? && Victim(l, capacity).Some? ==> Victim(l, capacity).value.key != other
    ensures SameTag(l, Put(l, capacity, key, entry), other)
  {
    LookupFinds(l, key);
    match Lookup(l, key)
    case Some(s) =>
      WithoutElements(l, key);
      FrontKeeps(l, s.(entry := entry), Without(l, key), other);
    case None =>
      RoomKeeps(l, capacity, other);
      FrontKeeps(l, Slot(key, entry, 0), MakeRoom(l, capacity), other);
  }

  lemma PromotedKeeps(l: seq<Slot>, key: string, at: int, other: string)
    requires DistinctKeys(l)
    ensures SameTag(l, Promoted(l, key, at), other)
  {
    WithoutElements(l, key);
    LookupFinds(l, key);
    if Lookup(l, key).Some? {
      var s := Lookup(l, key).value;
      assert Promoted(l, key, at)[0] in Promoted(l, key, at);
      forall t | t in l && t.key == key ensures t == s {
        LookupIs(l, t);
      }
    }
  }

  lemma ExpireKeeps(e: Engine, key: string, ttl: int, now: int, other: string)
    requires Sound(e) && Undisturbed(e, Op.Expire(key, ttl), now, other)
    ensures SameTag(e.list, DoExpire(e, key, ttl, now).list, other)
  {
    var s := Lookup(e.list, key);
    WithoutElements(e.list, key);
    if s.Some? && !s.value.entry.tombstone && !IsExpired(s.value.entry, now) {
      UpdatedKeeps(e.list, key, s.value.entry.(expiresAt := Some(now + ttl * TICKS_PER_MS)), other);
    }
  }

  lemma UpdatedKeeps(l: seq<Slot>, key: string, entry: CacheEntry, other: string)
    requires DistinctKeys(l) && Lookup(l, key).Some? && EntryTag(entry) == EntryTag(Lookup(l, key).value.entry)
    ensures SameTag(l, Updated(l, key, entry), other)
  {
    var l' := Updated(l, key, entry);
    UpdatedFacts(l, key, entry);
    forall s | s in l && s.key == other
      ensures exists s' :: s' in l' && s'.key == other && EntryTag(s'.entry) == EntryTag(s.entry)
    {
      var i :| 0 <= i < |l| && l[i] == s;
      LookupIs(l, s);
      assert l'[i] in l';
    }
    forall s' | s' in l' && s'.key == other ensures exists s :: s in l && s.key == other {
      var i :| 0 <= i < |l'| && l'[i] == s';
      assert l[i] in l;
    }
  }

  lemma PurgeKeeps(l: seq<Slot>, now: int, key: string)
    requires DistinctKeys(l) && (Lookup(l, key).Some? ==> !IsExpired(Lookup(l, key).value.entry, now))
    ensures SameTag(l, Unexpired(l, now), key)
  {
    UnexpiredFacts(l, now);
    forall s | s in l && s.key == key ensures s in Unexpired(l, now) {
      LookupIs(l, s);
    }
  }

  /** One undisturbed step merges what it applies to the key and changes nothing else about it. */
  lemma StepMerges(e: Engine, op: Op, now: int, key: string)
    requires Sound(e) && Undisturbed(e, op, now, key)
    ensures TagAt(Step(e, op, now).list, key) ==
            if op.Apply? && op.key == key then Merge(TagAt(e.list, key), ValueTag(op.v)) else TagAt(e.list, key)
  {
    if op.Apply? && op.key == key {
      ApplyIsMerge(e, key, op.v, now);
    } else {
      StepSound(e, op, now);
      StepKeepsTag(e, op, now, key);
      SameTagAt(e.list, Step(e, op, now).list, key);
    }
  }

  lemma StepKeepsTag(e: Engine, op: Op, now: int, key: string)
    requires Sound(e) && Undisturbed(e, op, now, key) && !(op.Apply? && op.key == key)
    ensures SameTag(e.list, Step(e, op, now).list, key)
  {
    match op
    case Set(k, value, ttl) =>
      PutKeepsOthers(e.list, e.capacity, k, CacheEntry(value, Expiry(now, ttl), 0, false), key);
    case Read(k, at) =>
    case Promote(k, at) => PromotedKeeps(e.list, k, at, key);
    case Apply(k, v) => PutKeepsOthers(e.list, e.capacity, k, AppliedEntry(v, e.tombstoneTtl, now), key);
    case Remove(k) => WithoutElements(e.list, k);
    case Expire(k, ttl) => ExpireKeeps(e.(clock := now), k, ttl, now, key);
    case Purge => PurgeKeeps(e.list, now, key);
  }

  type Events = seq<(Op, int)>

  function Played(e: Engine, events: Events): Engine
    decreases |events|
  {
    if events == [] then e else Played(Step(e, events[0].0, events[0].1), events[1..])
  }

  /** The whole run leaves the entry of `key` to apply(). */
  predicate UndisturbedRun(e: Engine, events: Events, key: string)
    decreases |events|
  {
    events == [] ||
    (Undisturbed(e, events[0].0, events[0].1, key) &&
     UndisturbedRun(Step(e, events[0].0, events[0].1), events[1..], key))
  }

  /** The writes a run applies to `key`, in order. */
  function Writes(events: Events, key: string): seq<Tag>
    decreases |events|
  {
    if events == [] then []
    else
      var op := events[0].0;
      (if op.Apply? && op.key == key then [ValueTag(op.v)] else []) + Writes(events[1..], key)
  }

  lemma {:induction false} PlayedMerges(e: Engine, events: Events, key: string)
    requires Sound(e) && UndisturbedRun(e, events, key)
    ensures TagAt(Played(e, events).list, key) == ApplyAll(TagAt(e.list, key), Writes(events, key))
    decreases |events|
  {
    if events != [] {
      var (op, now) := events[0];
      StepSound(e, op, now);
      StepMerges(e, op, now, key);
      PlayedMerges(Step(e, op, now), events[1..], key);
      if op.Apply? && op.key == key {
        assert Writes(events, key)[1..] == Writes(events[1..], key);
      } else {
        assert Writes(events, key) == Writes(events[1..], key);
      }
    }
  }

  /**
    Two caches that start with the same entry for a key and are sent the same set of writes to it,
    in any order, with any duplication and among any other operations that leave the entry alone,
    end with the same entry.
   */
  lemma CachesConverge(a: Engine, sent: Events, b: Engine, resent: Events, key: string)
    requires Sound(a) && Sound(b) && TagAt(a.list, key) == TagAt(b.list, key)
    requires UndisturbedRun(a, sent, key) && UndisturbedRun(b, resent, key)
    requires (set t | t in Writes(sent, key)) == (set t | t in Writes(resent, key))
    ensures TagAt(Played(a, sent).list, key) == TagAt(Played(b, resent).list, key)
  {
    PlayedMerges(a, sent, key);
    PlayedMerges(b, resent, key);
    ReplicasConverge(TagAt(a.list, key), Writes(sent, key), Writes(resent, key));
  }
}
