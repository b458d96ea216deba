/**
  Versioned values and their last-writer-wins order (include/shardcache/cache_entry.hpp).

  A `Tag` is what `supersedes` looks at: version, tombstone flag and value.  `Le` orders the
  possible contents of one replica, with "no entry" at the bottom.
 */
module Versions {
  import opened Options

  datatype CacheEntry = CacheEntry(value: string, expiresAt: Option<int>, version: nat, tombstone: bool)

  datatype VersionedValue = VersionedValue(value: string, version: nat, tombstone: bool, ttl: Option<int>)

  datatype Tag = Tag(version: nat, tombstone: bool, value: string)

  /** std::string's operator<, byte by byte. */
  predicate LexLess(a: string, b: string)
    decreases |a|
  {
    b != [] && (a == [] || a[0] < b[0] || (a[0] == b[0] && LexLess(a[1..], b[1..])))
  }

  predicate IsExpired(e: CacheEntry, now: int) {
    e.expiresAt.Some? && now >= e.expiresAt.value
  }

  /** Higher version wins; on a tie deletes win, then the larger value. */
  predicate Supersedes(version: nat, tombstone: bool, value: string, current: CacheEntry) {
    if version != current.version then version > current.version
    else if tombstone != current.tombstone then tombstone
    else LexLess(current.value, value)
  }

  function EntryTag(e: CacheEntry): Tag {
    Tag(e.version, e.tombstone, e.value)
  }

  function ValueTag(v: VersionedValue): Tag {
    Tag(v.version, v.tombstone, v.value)
  }

  predicate Less(a: Tag, b: Tag) {
    Supersedes(b.version, b.tombstone, b.value, CacheEntry(a.value, None, a.version, a.tombstone))
  }

  predicate Le(a: Option<Tag>, b: Option<Tag>) {
    a.None? || (b.Some? && (a == b || Less(a.value, b.value)))
  }

  // ---------- the order is strict and total ----------

  lemma {:induction false} LexTrichotomy(a: string, b: string)
    ensures LexLess(a, b) || a == b || LexLess(b, a)
    ensures !(LexLess(a, b) && (a == b || LexLess(b, a)))
    decreases |a|
  {
    if a != [] && b != [] && a[0] == b[0] {
      LexTrichotomy(a[1..], b[1..]);
      assert a == [a[0]] + a[1..] && b == [b[0]] + b[1..];
    }
  }

  lemma {:induction false} LexTransitive(a: string, b: string, c: string)
    requires LexLess(a, b) && LexLess(b, c)
    ensures LexLess(a, c)
    decreases |a|
  {
    if a != [] && a[0] == b[0] && b[0] == c[0] {
      LexTransitive(a[1..], b[1..], c[1..]);
    }
  }

  /** `supersedes` is a strict total order on (version, tombstone, value). */
  lemma StrictTotalOrder(a: Tag, b: Tag, c: Tag)
    ensures !Less(a, a)
    ensures Less(a, b) || a == b || Less(b, a)
    ensures !(Less(a, b) && Less(b, a))
    ensures Less(a, b) && Less(b, c) ==> Less(a, c)
  {
    LexTrichotomy(a.value, a.value);
    LexTrichotomy(a.value, b.value);
    if LexLess(a.value, b.value) && LexLess(b.value, c.value) {
      LexTransitive(a.value, b.value, c.value);
    }
  }

  lemma LeTransitive(a: Option<Tag>, b: Option<Tag>, c: Option<Tag>)
    requires Le(a, b) && Le(b, c)
    ensures Le(a, c)
  {
    if a.Some? {
      StrictTotalOrder(a.value, b.value, c.value);
    }
  }

  lemma LeTotal(a: Option<Tag>, b: Option<Tag>)
    ensures Le(a, b) || Le(b, a)
    ensures Le(a, b) && Le(b, a) ==> a == b
  {
    if a.Some? && b.Some? {
      StrictTotalOrder(a.value, b.value, a.value);
    }
  }

  // ---------- one replica's register ----------

  /** What a replica stores after receiving `t`, while nothing expires or is evicted. */
  function Merge(e: Option<Tag>, t: Tag): (r: Option<Tag>)
    ensures Le(e, r) && Le(Some(t), r)
    ensures r == e || r == Some(t)
  {
    if e.Some? && !Less(e.value, t) then
      StrictTotalOrder(e.value, t, t); e
    else
      Some(t)
  }

  function ApplyAll(e: Option<Tag>, writes: seq<Tag>): Option<Tag>
    decreases |writes|
  {
    if writes == [] then e else ApplyAll(Merge(e, writes[0]), writes[1..])
  }

  /** The final entry is the largest of the initial entry and everything applied. */
  lemma {:induction false} ApplyAllIsMaximum(e: Option<Tag>, writes: seq<Tag>)
    ensures Le(e, ApplyAll(e, writes))
    ensures forall t | t in writes :: Le(Some(t), ApplyAll(e, writes))
    ensures ApplyAll(e, writes) == e || (ApplyAll(e, writes).Some? && ApplyAll(e, writes).value in writes)
    decreases |writes|
  {
    if writes != [] {
      var m := Merge(e, writes[0]);
      ApplyAllIsMaximum(m, writes[1..]);
      LeTransitive(e, m, ApplyAll(e, writes));
      LeTransitive(Some(writes[0]), m, ApplyAll(e, writes));
    }
  }

  /**
    Two replicas that started alike and applied the same set of writes, each in any order and
    with any duplication, hold the identical entry.
   */
  lemma ReplicasConverge(e: Option<Tag>, ws1: seq<Tag>, ws2: seq<Tag>)
    requires (set t | t in ws1) == (set t | t in ws2)
    ensures ApplyAll(e, ws1) == ApplyAll(e, ws2)
  {
    ApplyAllIsMaximum(e, ws1);
    ApplyAllIsMaximum(e, ws2);
    var a, b := ApplyAll(e, ws1), ApplyAll(e, ws2);
    var s1 := set t | t in ws1;
    var s2 := set t | t in ws2;
    if a != e {
      assert a.value in s1 && a.value in s2;
    }
    if b != e {
      assert b.value in s2 && b.value in s1;
    }
    LeTotal(a, b);
  }
}
