/**
  The snapshot file (src/snapshot.cpp): round trip, all-or-nothing load, and detection of any
  single corrupted byte.

  Bytes are characters below 256; numbers are stored little-endian.
 */
module Snapshots {
  import opened Options
  import opened Versions
  import opened Words

  const MAGIC := "SCSNAP01"
  const BASIS := 1469598103934665603
  const PRIME := 1099511628211

  predicate Octets(s: string) {
    forall i | 0 <= i < |s| :: s[i] as int < 256
  }

  // ---------- the checksum ----------

  /** Bitwise exclusive or. */
  function Xor(a: nat, b: nat): nat
    decreases a + b
  {
    if a == 0 && b == 0 then 0 else (a % 2 + b % 2) % 2 + 2 * Xor(a / 2, b / 2)
  }

  /** h ^= b for a byte b. */
  function XorByte(h: nat, b: nat): nat {
    h / 256 * 256 + Xor(h % 256, b)
  }

  /** h ^= b; h *= PRIME, in 64 bits. */
  function Mix(h: nat, b: nat): nat {
    (XorByte(h, b) * PRIME) % WORD
  }

  function Checksum(data: string): nat {
    if data == "" then BASIS else Mix(Checksum(data[..|data| - 1]), data[|data| - 1] as int)
  }

  method ComputeChecksum(data: string) returns (h: nat)
    ensures h == Checksum(data)
  {
    h := BASIS;
    for i := 0 to |data|
      invariant h == Checksum(data[..i])
    {
      assert data[..i + 1][..i] == data[..i];
      h := Mix(h, data[i] as int);
    }
    assert data[..|data|] == data;
  }

  function Pow2(n: nat): nat {
    if n == 0 then 1 else 2 * Pow2(n - 1)
  }

  lemma {:induction false} XorBound(a: nat, b: nat, n: nat)
    requires a < Pow2(n) && b < Pow2(n)
    ensures Xor(a, b) < Pow2(n)
    decreases n
  {
    if n > 0 {
      XorBound(a / 2, b / 2, n - 1);
    }
  }

  lemma {:induction false} XorSymmetric(a: nat, b: nat)
    ensures Xor(a, b) == Xor(b, a)
    decreases a + b
  {
    if a > 0 || b > 0 {
      XorSymmetric(a / 2, b / 2);
    }
  }

  lemma SameBits(r: nat, x: nat, r': nat, x': nat)
    requires r < 2 && r' < 2 && r + 2 * x == r' + 2 * x'
    ensures r == r' && x == x'
  {
  }

  lemma SameParity(r: nat, r': nat, s: nat)
    requires r < 2 && r' < 2 && s < 2 && (r + s) % 2 == (r' + s) % 2
    ensures r == r'
  {
  }

  lemma XorUnfolds(a: nat, b: nat)
    ensures Xor(a, b) == (a % 2 + b % 2) % 2 + 2 * Xor(a / 2, b / 2)
  {
  }

  lemma {:induction false} XorInjective(a: nat, a': nat, b: nat)
    requires Xor(a, b) == Xor(a', b)
    ensures a == a'
    decreases a + a' + b
  {
    if a > 0 || a' > 0 || b > 0 {
      XorUnfolds(a, b);
      XorUnfolds(a', b);
      SameBits((a % 2 + b % 2) % 2, Xor(a / 2, b / 2), (a' % 2 + b % 2) % 2, Xor(a' / 2, b / 2));
      XorInjective(a / 2, a' / 2, b / 2);
      SameParity(a % 2, a' % 2, b % 2);
    }
  }

  lemma SplitBytes(q: nat, x: nat, q': nat, x': nat)
    requires x < 256 && x' < 256 && q * 256 + x == q' * 256 + x'
    ensures q == q' && x == x'
  {
  }

  lemma XorByteBound(h: nat, b: nat)
    requires b < 256
    ensures Xor(h % 256, b) < 256
    ensures h < WORD ==> XorByte(h, b) < WORD
  {
    assert Pow2(4) == 16;
    assert Pow2(8) == 256;
    XorBound(h % 256, b, 8);
  }

  lemma XorByteInjective(h: nat, h': nat, b: nat)
    requires b < 256 && XorByte(h, b) == XorByte(h', b)
    ensures h == h'
  {
    XorByteBound(h, b);
    XorByteBound(h', b);
    SplitBytes(h / 256, Xor(h % 256, b), h' / 256, Xor(h' % 256, b));
    XorInjective(h % 256, h' % 256, b);
  }

  lemma XorByteSeparates(h: nat, b: nat, b': nat)
    requires XorByte(h, b) == XorByte(h, b')
    ensures b == b'
  {
    XorSymmetric(h % 256, b);
    XorSymmetric(h % 256, b');
    XorInjective(b, b', h % 256);
  }

  /** PRIME is odd, so multiplying by it modulo 2^64 can be undone. */
  const INVERSE := 14886173955864302971

  lemma MulCancel(d: int, q: int)
    requires d * PRIME == q * WORD && -WORD < d < WORD
    ensures d == 0
  {
    var k := 887285111055;
    var z := q * INVERSE - d * k;
    assert PRIME * INVERSE == 1 + k * WORD;
    calc {
      d;
      d * (1 + k * WORD) - d * (k * WORD);
      d * (PRIME * INVERSE) - d * (k * WORD);
      (d * PRIME) * INVERSE - (d * k) * WORD;
      (q * WORD) * INVERSE - (d * k) * WORD;
      z * WORD;
    }
  }

  lemma ScaleInjective(x: nat, y: nat)
    requires x < WORD && y < WORD && (x * PRIME) % WORD == (y * PRIME) % WORD
    ensures x == y
  {
    var q := (x * PRIME) / WORD - (y * PRIME) / WORD;
    assert (x - y) * PRIME == x * PRIME - y * PRIME == q * WORD;
    MulCancel(x - y, q);
  }

  /** Each checksum step is injective in the running value and in the byte. */
  lemma MixInjective(h: nat, h': nat, b: nat, b': nat)
    requires h < WORD && h' < WORD && b < 256 && b' < 256
    ensures Mix(h, b) == Mix(h', b) ==> h == h'
    ensures Mix(h, b) == Mix(h, b') ==> b == b'
  {
    XorByteBound(h, b);
    if Mix(h, b) == Mix(h', b) {
      XorByteBound(h', b);
      ScaleInjective(XorByte(h, b), XorByte(h', b));
      XorByteInjective(h, h', b);
    }
    if Mix(h, b) == Mix(h, b') {
      XorByteBound(h, b');
      ScaleInjective(XorByte(h, b), XorByte(h, b'));
      XorByteSeparates(h, b, b');
    }
  }

  lemma ChecksumIsWord(data: string)
    ensures Checksum(data) < WORD
  {
  }

  lemma MixDetects(h: nat, h': nat, b: nat, b': nat)
    requires h < WORD && h' < WORD && b < 256 && b' < 256
    requires h == h' <==> b != b'
    ensures Mix(h, b) != Mix(h', b')
  {
    MixInjective(h, h', b, b');
  }

  /** Two buffers that differ in exactly one byte have different checksums. */
  lemma {:induction false} ChecksumDetects(data: string, data': string, i: nat)
    requires |data| == |data'| && i < |data| && Octets(data) && Octets(data')
    requires data[i] != data'[i] && forall j | 0 <= j < |data| && j != i :: data[j] == data'[j]
    ensures Checksum(data) != Checksum(data')
    decreases |data|
  {
    var n := |data| - 1;
    var a, b := data[..n], data'[..n];
    ChecksumIsWord(a);
    ChecksumIsWord(b);
    if i == n {
      assert a == b;
    } else {
      ChecksumDetects(a, b, i);
    }
    MixDetects(Checksum(a), Checksum(b), data[n] as int, data'[n] as int);
  }

  // ---------- fields ----------

  function Le(n: nat, k: nat): string {
    if k == 0 then "" else [(n % 256) as char] + Le(n / 256, k - 1)
  }

  function FromLe(s: string): nat {
    if s == "" then 0 else s[0] as int + 256 * FromLe(s[1..])
  }

  function Pow256(k: nat): nat {
    if k == 0 then 1 else 256 * Pow256(k - 1)
  }

  lemma {:induction false} LeRoundTrip(n: nat, k: nat)
    ensures |Le(n, k)| == k && Octets(Le(n, k))
    ensures n < Pow256(k) ==> FromLe(Le(n, k)) == n
  {
    if k > 0 {
      LeRoundTrip(n / 256, k - 1);
      assert Le(n, k)[1..] == Le(n / 256, k - 1);
    }
  }

  /** Different words have different encodings, and different encodings are different words. */
  lemma {:induction false} FromLeInjective(s: string, t: string)
    requires |s| == |t| && Octets(s) && Octets(t) && FromLe(s) == FromLe(t)
    ensures s == t
    decreases |s|
  {
    if s != "" {
      FromLeInjective(s[1..], t[1..]);
      assert s == [s[0]] + s[1..] && t == [t[0]] + t[1..];
    }
  }

  /** A number of k bytes at the front, and what follows. */
  function TakeNum(s: string, k: nat): Option<(nat, string)> {
    if |s| < k then None else Some((FromLe(s[..k]), s[k..]))
  }

  function Str(x: string): string {
    Le(|x|, 4) + x
  }

  function TakeStr(s: string): Option<(string, string)> {
    match TakeNum(s, 4)
    case None => None
    case Some((n, rest)) => if |rest| < n then None else Some((rest[..n], rest[n..]))
  }

  /** One entry as stored; `expiry` is an absolute time, or -1. */
  datatype Saved = Saved(key: string, value: string, version: nat, tombstone: bool, expiry: int)

  function TwosComplement(n: int): nat
    requires -WORD / 2 <= n < WORD / 2
  {
    if n >= 0 then n else n + WORD
  }

  function SignedWord(n: nat): int {
    if n < WORD / 2 then n else n - WORD
  }

  /** What the file's bytes and 64-bit fields can hold. */
  predicate Writable(e: Saved) {
    Octets(e.key) && Octets(e.value) && e.version < WORD && -WORD / 2 <= e.expiry < WORD / 2
  }

  /** Lengths are stored in 32 bits. */
  predicate Short(key: string, value: string) {
    |key| < WORD32 && |value| < WORD32
  }

  predicate Storable(e: Saved) {
    Writable(e) && Short(e.key, e.value)
  }

  function Fields(e: Saved): string
    requires Writable(e)
  {
    Le(e.version, 8) + (Le(if e.tombstone then 1 else 0, 1) + Le(TwosComplement(e.expiry), 8))
  }

  function Entry(e: Saved): string
    requires Writable(e)
  {
    Str(e.key) + (Str(e.value) + Fields(e))
  }

  function TakeFields(key: string, value: string, s: string): Option<(Saved, string)> {
    match TakeNum(s, 8)
    case None => None
    case Some((version, s1)) =>
      match TakeNum(s1, 1)
      case None => None
      case Some((tombstone, s2)) =>
        match TakeNum(s2, 8)
        case None => None
        case Some((expiry, rest)) => Some((Saved(key, value, version, tombstone != 0, SignedWord(expiry)), rest))
  }

  function TakeEntry(s: string): Option<(Saved, string)> {
    match TakeStr(s)
    case None => None
    case Some((key, s1)) =>
      match TakeStr(s1)
      case None => None
      case Some((value, s2)) => TakeFields(key, value, s2)
  }

  lemma TakeNumRoundTrip(n: nat, k: nat, rest: string)
    requires n < Pow256(k)
    ensures TakeNum(Le(n, k) + rest, k) == Some((n, rest))
  {
    LeRoundTrip(n, k);
    assert (Le(n, k) + rest)[..k] == Le(n, k) && (Le(n, k) + rest)[k..] == rest;
  }

  lemma TakeStrRoundTrip(x: string, rest: string)
    requires |x| < WORD32
    ensures TakeStr(Str(x) + rest) == Some((x, rest))
  {
    assert Pow256(4) == WORD32;
    TakeNumRoundTrip(|x|, 4, x + rest);
    assert Str(x) + rest == Le(|x|, 4) + (x + rest);
    assert (x + rest)[..|x|] == x && (x + rest)[|x|..] == rest;
  }

  lemma ThreeFields(key: string, value: string, v: nat, t: nat, x: nat, s: string, s1: string, s2: string, rest: string)
    requires TakeNum(s, 8) == Some((v, s1)) && TakeNum(s1, 1) == Some((t, s2)) && TakeNum(s2, 8) == Some((x, rest))
    ensures TakeFields(key, value, s) == Some((Saved(key, value, v, t != 0, SignedWord(x)), rest))
  {
  }

  lemma AppendNested(a: string, b: string, c: string, rest: string)
    ensures a + (b + c) + rest == a + (b + (c + rest))
  {
    assert b + c + rest == b + (c + rest);
  }

  lemma TakeFieldsRoundTrip(e: Saved, rest: string)
    requires Writable(e)
    ensures TakeFields(e.key, e.value, Fields(e) + rest) == Some((e, rest))
  {
    assert Pow256(4) == WORD32;
    assert Pow256(8) == WORD;
    assert Pow256(1) == 256;
    var t, x := if e.tombstone then 1 else 0, TwosComplement(e.expiry);
    var s2 := Le(x, 8) + rest;
    var s1 := Le(t, 1) + s2;
    TakeNumRoundTrip(x, 8, rest);
    TakeNumRoundTrip(t, 1, s2);
    TakeNumRoundTrip(e.version, 8, s1);
    AppendNested(Le(e.version, 8), Le(t, 1), Le(x, 8), rest);
    ThreeFields(e.key, e.value, e.version, t, x, Fields(e) + rest, s1, s2, rest);
  }

  lemma ThreeParts(e: Saved, s: string, s1: string, s2: string, rest: string)
    requires TakeStr(s) == Some((e.key, s1)) && TakeStr(s1) == Some((e.value, s2))
    requires TakeFields(e.key, e.value, s2) == Some((e, rest))
    ensures TakeEntry(s) == Some((e, rest))
  {
  }

  lemma TakeEntryRoundTrip(e: Saved, rest: string)
    requires Storable(e)
    ensures TakeEntry(Entry(e) + rest) == Some((e, rest))
  {
    var s2 := Fields(e) + rest;
    TakeStrRoundTrip(e.key, Str(e.value) + s2);
    TakeStrRoundTrip(e.value, s2);
    TakeFieldsRoundTrip(e, rest);
    AppendNested(Str(e.key), Str(e.value), Fields(e), rest);
    ThreeParts(e, Entry(e) + rest, Str(e.value) + s2, s2, rest);
  }

  /** A length read back is below 2^32, whatever it was when written. */
  lemma {:induction false} FromLeBound(s: string)
    requires Octets(s)
    ensures FromLe(s) < Pow256(|s|)
  {
    if s != "" {
      FromLeBound(s[1..]);
    }
  }

  lemma TakeStrShort(s: string)
    requires Octets(s) && TakeStr(s).Some?
    ensures |TakeStr(s).value.0| < WORD32 && Octets(TakeStr(s).value.1)
  {
    FromLeBound(s[..4]);
    assert Pow256(4) == WORD32;
  }

  lemma TakeEntryShort(s: string)
    requires Octets(s) && TakeEntry(s).Some?
    ensures var (e, rest) := TakeEntry(s).value; Short(e.key, e.value) && Octets(rest)
  {
    TakeStrShort(s);
    TakeStrShort(TakeStr(s).value.1);
  }

  // ---------- whole files ----------

  predicate AllWritable(es: seq<Saved>) {
    forall i | 0 <= i < |es| :: Writable(es[i])
  }

  predicate AllStorable(es: seq<Saved>)
    ensures AllStorable(es) ==> AllWritable(es)
  {
    forall i | 0 <= i < |es| :: Storable(es[i])
  }

  function Entries(es: seq<Saved>): string
    requires AllWritable(es)
  {
    if es == [] then "" else Entry(es[0]) + Entries(es[1..])
  }

  /** `count` items in a row, each read by `take`. */
  function TakeMany<T>(take: string -> Option<(T, string)>, s: string, count: nat): Option<(seq<T>, string)>
    decreases count
  {
    if count == 0 then Some(([], s))
    else
      match take(s)
      case None => None
      case Some((e, s1)) => After([e], TakeMany(take, s1, count - 1))
  }

  /** A decoding that goes on after `es`. */
  function After<T>(es: seq<T>, r: Option<(seq<T>, string)>): Option<(seq<T>, string)> {
    if r.None? then None else Some((es + r.value.0, r.value.1))
  }

  function TakeEntries(s: string, count: nat): Option<(seq<Saved>, string)> {
    TakeMany(TakeEntry, s, count)
  }

  lemma TakeNext<T>(take: string -> Option<(T, string)>, s: string, e: T, s1: string, es: seq<T>, rest: string)
    requires take(s) == Some((e, s1)) && TakeMany(take, s1, |es|) == Some((es, rest))
    ensures TakeMany(take, s, |es| + 1) == Some(([e] + es, rest))
  {
  }

  lemma {:induction false} TakeEntriesRoundTrip(es: seq<Saved>)
    requires AllStorable(es)
    ensures TakeEntries(Entries(es), |es|) == Some((es, ""))
    decreases |es|
  {
    if es != [] {
      var rest := es[1..];
      TakeEntryRoundTrip(es[0], Entries(rest));
      TakeEntriesRoundTrip(rest);
      TakeNext(TakeEntry, Entries(es), es[0], Entries(rest), rest, "");
      assert [es[0]] + rest == es;
    }
  }

  /** What `take` makes of every input that is `fine`, and leaves `fine`, holds of all items. */
  lemma {:induction false} TakeManyAll<T>(take: string -> Option<(T, string)>, fine: string -> bool, good: T -> bool,
                                          s: string, count: nat)
    requires forall x | fine(x) && take(x).Some? :: good(take(x).value.0) && fine(take(x).value.1)
    requires fine(s) && TakeMany(take, s, count).Some?
    ensures forall e | e in TakeMany(take, s, count).value.0 :: good(e)
    decreases count
  {
    if count > 0 {
      TakeManyAll(take, fine, good, take(s).value.1, count - 1);
    }
  }

  predicate ShortEntry(e: Saved) {
    Short(e.key, e.value)
  }

  lemma TakeEntriesShort(s: string, count: nat)
    requires Octets(s) && TakeEntries(s, count).Some?
    ensures forall e | e in TakeEntries(s, count).value.0 :: ShortEntry(e)
  {
    forall x | Octets(x) && TakeEntry(x).Some?
      ensures ShortEntry(TakeEntry(x).value.0) && Octets(TakeEntry(x).value.1)
    {
      TakeEntryShort(x);
    }
    TakeManyAll(TakeEntry, Octets, ShortEntry, s, count);
  }

  lemma EntryOctets(e: Saved)
    requires Writable(e)
    ensures Octets(Entry(e))
  {
    LeRoundTrip(|e.key|, 4);
    LeRoundTrip(|e.value|, 4);
    LeRoundTrip(e.version, 8);
    LeRoundTrip(if e.tombstone then 1 else 0, 1);
    LeRoundTrip(TwosComplement(e.expiry), 8);
  }

  lemma {:induction false} EntriesOctets(es: seq<Saved>)
    requires AllWritable(es)
    ensures Octets(Entries(es))
  {
    if es != [] {
      EntryOctets(es[0]);
      EntriesOctets(es[1..]);
    }
  }

  function Body(es: seq<Saved>): string
    requires AllWritable(es)
  {
    MAGIC + (Le(|es|, 8) + Entries(es))
  }

  function File(es: seq<Saved>): string
    requires AllWritable(es)
  {
    Body(es) + Le(Checksum(Body(es)), 8)
  }

  /** load_snapshot's checks and decoding; None is a rejected file. */
  function Decode(buf: string): Option<seq<Saved>> {
    if |buf| < 24 || buf[..8] != MAGIC then None
    else if Checksum(buf[..|buf| - 8]) != FromLe(buf[|buf| - 8..]) then None
    else
      match TakeNum(buf[8..|buf| - 8], 8)
      case None => None
      case Some((count, rest)) =>
        match TakeEntries(rest, count)
        case None => None
        case Some((es, tail)) => if tail != "" then None else Some(es)
  }

  /** Decoding a saved snapshot gives back exactly the saved entries. */
  lemma FileRoundTrip(es: seq<Saved>)
    requires AllStorable(es) && |es| < WORD
    ensures Decode(File(es)) == Some(es)
  {
    var body, sum := Body(es), Checksum(Body(es));
    var buf := File(es);
    assert Pow256(4) == WORD32;
    assert Pow256(8) == WORD;
    ChecksumIsWord(body);
    LeRoundTrip(sum, 8);
    LeRoundTrip(|es|, 8);
    assert buf[..|buf| - 8] == body && buf[|buf| - 8..] == Le(sum, 8);
    assert buf[..8] == body[..8] == MAGIC;
    assert buf[8..|buf| - 8] == body[8..] == Le(|es|, 8) + Entries(es);
    TakeNumRoundTrip(|es|, 8, Entries(es));
    TakeEntriesRoundTrip(es);
  }

  /** Changing any single byte of an accepted file makes it rejected. */
  lemma CorruptionRejected(buf: string, buf': string, i: nat)
    requires Octets(buf) && Octets(buf') && |buf| == |buf'| && i < |buf| && Decode(buf).Some?
    requires buf[i] != buf'[i] && forall j | 0 <= j < |buf| && j != i :: buf[j] == buf'[j]
    ensures Decode(buf').None?
  {
    var n := |buf| - 8;
    if i < n {
      ChecksumDetects(buf[..n], buf'[..n], i);
      assert buf[n..] == buf'[n..];
    } else {
      assert buf[..n] == buf'[..n];
      assert buf[n..][i - n] != buf'[n..][i - n];
      if FromLe(buf[n..]) == FromLe(buf'[n..]) {
        FromLeInjective(buf[n..], buf'[n..]);
      }
    }
  }

  // ---------- saving and loading versioned values ----------

  function ToSaved(key: string, v: VersionedValue, now: int): Saved {
    Saved(key, v.value, v.version, v.tombstone, if v.ttl.Some? then now + v.ttl.value else -1)
  }

  function SavedAll(entries: seq<(string, VersionedValue)>, now: int): seq<Saved> {
    seq(|entries|, i requires 0 <= i < |entries| => ToSaved(entries[i].0, entries[i].1, now))
  }

  /** What is applied to the cache for one decoded entry; None if it expired meanwhile. */
  function Restored(e: Saved, now: int): Option<(string, VersionedValue)> {
    if e.expiry >= 0 && e.expiry <= now then None
    else
      Some((e.key, VersionedValue(e.value, e.version, e.tombstone,
                                  if e.tombstone || e.expiry < 0 then None else Some(e.expiry - now))))
  }

  function RestoredAll(es: seq<Saved>, now: int): seq<(string, VersionedValue)> {
    if es == [] then []
    else
      var rest := RestoredAll(es[..|es| - 1], now);
      var r := Restored(es[|es| - 1], now);
      if r.Some? then rest + [r.value] else rest
  }

  /** An entry after `elapsed` milliseconds: gone once its TTL is used up; tombstones carry no TTL. */
  function Aged(entry: (string, VersionedValue), elapsed: int): Option<(string, VersionedValue)> {
    var (key, v) := entry;
    if v.ttl.Some? && v.ttl.value <= elapsed then None
    else Some((key, v.(ttl := if v.tombstone || v.ttl.None? then None else Some(v.ttl.value - elapsed))))
  }

  function AgedAll(entries: seq<(string, VersionedValue)>, elapsed: int): seq<(string, VersionedValue)> {
    if entries == [] then []
    else
      var rest := AgedAll(entries[..|entries| - 1], elapsed);
      var r := Aged(entries[|entries| - 1], elapsed);
      if r.Some? then rest + [r.value] else rest
  }

  /** Cache::snapshot reports no negative TTL. */
  predicate Listed(entries: seq<(string, VersionedValue)>) {
    forall i | 0 <= i < |entries| :: entries[i].1.ttl.Some? ==> entries[i].1.ttl.value >= 0
  }

  lemma {:induction false} RestoredIsAged(entries: seq<(string, VersionedValue)>, now: int, later: int)
    requires now >= 0 && Listed(entries)
    ensures RestoredAll(SavedAll(entries, now), later) == AgedAll(entries, later - now)
    decreases |entries|
  {
    if entries != [] {
      var n := |entries| - 1;
      RestoredIsAged(entries[..n], now, later);
      assert SavedAll(entries, now)[..n] == SavedAll(entries[..n], now);
      assert entries[n].1.ttl.Some? ==> entries[n].1.ttl.value >= 0;
    }
  }

  /** Saved at one time and loaded at another: every entry aged by the time between. */
  lemma LoadedIsAged(entries: seq<(string, VersionedValue)>, now: int, later: int)
    requires now >= 0 && |entries| < WORD && Listed(entries) && AllStorable(SavedAll(entries, now))
    ensures var d := Decode(File(SavedAll(entries, now)));
      d.Some? && RestoredAll(d.value, later) == AgedAll(entries, later - now)
  {
    FileRoundTrip(SavedAll(entries, now));
    RestoredIsAged(entries, now, later);
  }

  /** What a save and a load at the same moment give back unchanged. */
  predicate Lasting(v: VersionedValue) {
    (v.tombstone ==> v.ttl.None?) && (v.ttl.Some? ==> v.ttl.value >= 1)
  }

  predicate AllLasting(entries: seq<(string, VersionedValue)>) {
    forall i | 0 <= i < |entries| :: Lasting(entries[i].1)
  }

  lemma {:induction false} AgedShorter(entries: seq<(string, VersionedValue)>, elapsed: int)
    ensures |AgedAll(entries, elapsed)| <= |entries|
  {
    if entries != [] {
      AgedShorter(entries[..|entries| - 1], elapsed);
    }
  }

  lemma {:induction false} UnchangedExactly(entries: seq<(string, VersionedValue)>)
    ensures AgedAll(entries, 0) == entries <==> AllLasting(entries)
    decreases |entries|
  {
    if entries != [] {
      var n := |entries| - 1;
      var front, rest := entries[..n], AgedAll(entries[..n], 0);
      UnchangedExactly(front);
      AgedShorter(front, 0);
      assert entries == front + [entries[n]];
      assert AllLasting(entries) <==> AllLasting(front) && Lasting(entries[n].1);
      if AgedAll(entries, 0) == entries {
        assert AgedAll(entries, 0)[..n] == front;
      }
    }
  }

  lemma {:induction false} RestoredShort(es: seq<Saved>, now: int)
    requires forall e | e in es :: ShortEntry(e)
    ensures forall r | r in RestoredAll(es, now) :: Short(r.0, r.1.value)
    decreases |es|
  {
    if es != [] {
      var n := |es| - 1;
      RestoredShort(es[..n], now);
      assert es[n] in es && ShortEntry(es[n]);
    }
  }

  lemma FileOctets(es: seq<Saved>)
    requires AllWritable(es)
    ensures Octets(File(es))
  {
    EntriesOctets(es);
    LeRoundTrip(|es|, 8);
    LeRoundTrip(Checksum(Body(es)), 8);
  }

  lemma DecodedShort(buf: string)
    requires Octets(buf) && Decode(buf).Some?
    ensures forall e | e in Decode(buf).value :: ShortEntry(e)
  {
    var r := buf[8..|buf| - 8];
    TakeEntriesShort(r[8..], FromLe(r[..8]));
  }

  lemma LoadedShort(es: seq<Saved>, now: int)
    requires AllWritable(es) && Decode(File(es)).Some?
    ensures forall r | r in RestoredAll(Decode(File(es)).value, now) :: Short(r.0, r.1.value)
  {
    var buf := File(es);
    FileOctets(es);
    DecodedShort(buf);
    RestoredShort(Decode(buf).value, now);
  }

  ghost predicate ComesBack(entries: seq<(string, VersionedValue)>, now: int)
    requires AllWritable(SavedAll(entries, now))
  {
    var d := Decode(File(SavedAll(entries, now)));
    d.Some? && RestoredAll(d.value, now) == entries
  }

  /**
    Save then load at the same instant applies exactly the entries saved, in order, if and only if
    every string is shorter than 4 GiB, every TTL has a millisecond left and no tombstone has one.
   */
  lemma SaveLoadExactly(entries: seq<(string, VersionedValue)>, now: int)
    requires now >= 0 && |entries| < WORD && Listed(entries) && AllWritable(SavedAll(entries, now))
    ensures ComesBack(entries, now) <==>
            AllLasting(entries) && forall i | 0 <= i < |entries| :: Short(entries[i].0, entries[i].1.value)
  {
    var es := SavedAll(entries, now);
    if ComesBack(entries, now) {
      LoadedShort(es, now);
      forall i | 0 <= i < |entries| ensures Short(entries[i].0, entries[i].1.value) {
        assert entries[i] in entries;
      }
    }
    if forall i | 0 <= i < |entries| :: Short(entries[i].0, entries[i].1.value) {
      LoadedIsAged(entries, now, now);
      UnchangedExactly(entries);
    }
  }

  /** save_snapshot: the count is patched in after the entries were written. */
  method Save(entries: seq<(string, VersionedValue)>, now: int) returns (buf: string)
    requires AllWritable(SavedAll(entries, now))
    ensures buf == File(SavedAll(entries, now))
  {
    var w := WriteEntries(entries, now);
    LeRoundTrip(0, 8);
    var body := PatchCount(MAGIC + (Le(0, 8) + w), |entries|);
    assert (MAGIC + (Le(0, 8) + w))[16..] == w;
    var sum := ComputeChecksum(body);
    buf := body + Le(sum, 8);
  }

  method WriteEntries(entries: seq<(string, VersionedValue)>, now: int) returns (w: string)
    requires AllWritable(SavedAll(entries, now))
    ensures w == Entries(SavedAll(entries, now))
  {
    ghost var es := SavedAll(entries, now);
    w := "";
    var i := 0;
    assert es[0..] == es;
    while i < |entries|
      invariant 0 <= i <= |entries|
      invariant w + Entries(es[i..]) == Entries(es)
    {
      EntriesStep(es, i, w);
      w := w + Entry(ToSaved(entries[i].0, entries[i].1, now));
      i := i + 1;
    }
    assert w + "" == w;
  }

  lemma EntriesStep(es: seq<Saved>, i: nat, w: string)
    requires AllWritable(es) && i < |es|
    ensures w + Entries(es[i..]) == w + Entry(es[i]) + Entries(es[i + 1..])
  {
    assert es[i..][1..] == es[i + 1..];
    assert w + (Entry(es[i]) + Entries(es[i + 1..])) == w + Entry(es[i]) + Entries(es[i + 1..]);
  }

  function PatchCount(buf: string, count: nat): string
    requires |buf| >= 16
  {
    buf[..8] + (Le(count, 8) + buf[16..])
  }

  /** load_snapshot: decodes everything first, so a rejected file applies nothing. */
  method Load(buf: string, now: int) returns (ok: bool, applied: seq<(string, VersionedValue)>)
    ensures ok <==> Decode(buf).Some?
    ensures !ok ==> applied == []
    ensures ok ==> applied == RestoredAll(Decode(buf).value, now)
  {
    applied := [];
    if |buf| < 24 || buf[..8] != MAGIC {
      return false, [];
    }
    var sum := ComputeChecksum(buf[..|buf| - 8]);
    if sum != FromLe(buf[|buf| - 8..]) {
      return false, [];
    }
    var r := buf[8..|buf| - 8];
    var count := FromLe(r[..8]);
    var entries := TakeLoop(TakeEntry, r[8..], count);
    if entries.None? || entries.value.1 != "" {
      return false, [];
    }
    applied := ApplyLoop(entries.value.0, now);
    ok := true;
  }

  method ApplyLoop(es: seq<Saved>, now: int) returns (applied: seq<(string, VersionedValue)>)
    ensures applied == RestoredAll(es, now)
  {
    applied := [];
    var i := 0;
    while i < |es|
      invariant 0 <= i <= |es|
      invariant applied == RestoredAll(es[..i], now)
    {
      assert es[..i + 1][..i] == es[..i];
      var v := Restored(es[i], now);
      if v.Some? {
        applied := applied + [v.value];
      }
      i := i + 1;
    }
    assert es[..|es|] == es;
  }

  lemma AfterTwice<T>(a: seq<T>, b: seq<T>, r: Option<(seq<T>, string)>)
    ensures After(a, After(b, r)) == After(a + b, r)
    ensures After([], r) == r
  {
    if r.Some? {
      assert a + (b + r.value.0) == a + b + r.value.0;
      assert [] + r.value.0 == r.value.0;
    }
  }

  /** The decoding loop, with the position kept as the rest of the buffer. */
  method TakeLoop<T>(take: string -> Option<(T, string)>, s: string, count: nat) returns (r: Option<(seq<T>, string)>)
    ensures r == TakeMany(take, s, count)
  {
    var es: seq<T> := [];
    var rest := s;
    var i := 0;
    AfterTwice([], [], TakeMany(take, s, count));
    while i < count
      invariant 0 <= i <= count
      invariant After(es, TakeMany(take, rest, count - i)) == TakeMany(take, s, count)
    {
      var e := take(rest);
      if e.None? {
        return None;
      }
      AfterTwice(es, [e.value.0], TakeMany(take, e.value.1, count - i - 1));
      es := es + [e.value.0];
      rest := e.value.1;
      i := i + 1;
    }
    assert es + [] == es;
    r := Some((es, rest));
  }
}
