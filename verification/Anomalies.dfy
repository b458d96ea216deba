/**
  The anomaly detectors of the chaos harness (chaos/anomaly.go): what they count, that the
  indexed algorithms count exactly that, and that every reported case refutes linearizability.
 */
module Anomalies {
  import opened Options
  import opened Histories
  import opened Words

  /** Return time as the harness stores it: the largest int64 when the outcome is unknown. */
  function Ret(op: Operation): int {
    if op.ret.Some? then op.ret.value else INT64_MAX
  }

  /** Recorded times are int64 values, a call never after its return; failed reads are dropped. */
  predicate Timed(h: seq<Operation>) {
    forall i | 0 <= i < |h| ::
      && h[i].call <= INT64_MAX
      && (h[i].ret.Some? ==> h[i].call <= h[i].ret.value < INT64_MAX)
      && (h[i].action.Get? ==> h[i].ret.Some?)
  }

  predicate UniquePuts(h: seq<Operation>) {
    forall i, j | 0 <= i < j < |h| :: h[i].action.Put? && h[j].action.Put? ==> h[i].action.value != h[j].action.value
  }

  predicate FinishedWrite(op: Operation) {
    !op.action.Get? && op.ret.Some?
  }

  predicate FoundRead(op: Operation) {
    op.action.Get? && op.output.Some?
  }

  /** The last put of `v` in the history; with `finished`, only puts of known outcome count. */
  function Writer(h: seq<Operation>, v: string, finished: bool): Option<nat>
    decreases |h|
  {
    if h == [] then None
    else
      var n := |h| - 1;
      if h[n].action == Put(v) && (finished ==> h[n].ret.Some?) then Some(n)
      else Writer(h[..n], v, finished)
  }

  /** A write w2 to the key of read r began after r's writer returned, and returned before r began. */
  predicate Overwritten(w1: Operation, r: Operation, w2: Operation) {
    FinishedWrite(w2) && w2.key == r.key && w2.call > Ret(w1) && Ret(w2) < r.call
  }

  ghost predicate IsStale(h: seq<Operation>, r: nat)
    requires r < |h|
  {
    && FoundRead(h[r])
    && var w1 := Writer(h, h[r].output.value, true);
       w1.Some? && w1.value < |h| && exists w2 | 0 <= w2 < |h| :: Overwritten(h[w1.value], h[r], h[w2])
  }

  predicate ReadsKnownWrite(h: seq<Operation>, r: nat)
    requires r < |h|
  {
    FoundRead(h[r]) && Writer(h, h[r].output.value, false).Some?
  }

  /** Read `b` began after read `a` returned, but shows a write finished before a's write began. */
  predicate IsInversion(h: seq<Operation>, a: nat, b: nat)
    requires a < |h| && b < |h|
  {
    && ReadsKnownWrite(h, a) && ReadsKnownWrite(h, b) && h[a].key == h[b].key
    && var w, u := Writer(h, h[a].output.value, false).value, Writer(h, h[b].output.value, false).value;
       w < |h| && u < |h| && h[b].call > Ret(h[a]) && Ret(h[u]) < h[w].call
  }

  // ---------- reported cases are proofs of non-linearizability ----------

  lemma {:induction false} WriterIsPut(h: seq<Operation>, v: string, finished: bool)
    ensures var w := Writer(h, v, finished);
            w.Some? ==> w.value < |h| && h[w.value].action == Put(v) && (finished ==> h[w.value].ret.Some?)
    decreases |h|
  {
    if h != [] {
      WriterIsPut(h[..|h| - 1], v, finished);
    }
  }

  /** In a linearization a found read comes after its writer, with no other write between. */
  lemma ReadFollowsWriter(h: seq<Operation>, lin: seq<nat>, r: nat, w: nat) returns (pr: nat, pw: nat)
    requires UniquePuts(h) && r < |h| && w < |h| && FoundRead(h[r]) && h[r].ret.Some?
    requires IsLinearization(h, h[r].key, lin)
    requires h[w].action == Put(h[r].output.value)
    ensures pw < pr < |lin| && lin[pr] == r && lin[pw] == w
    ensures forall i | pw < i < pr :: h[lin[i]].action.Get?
  {
    pr :| 0 <= pr < |lin| && lin[pr] == r;
    LegalRead(h, lin, pr);
    pw := FoundValueWasPut(h, lin[..pr]);
    assert lin[..pr][pw] == lin[pw];
    forall i | pw < i < pr ensures h[lin[i]].action.Get? {
      assert lin[..pr][i] == lin[i];
    }
  }

  lemma InTimeOrder(h: seq<Operation>, key: string, lin: seq<nat>, i: nat, j: nat)
    requires IsLinearization(h, key, lin) && i < |lin| && j < |lin|
    requires Ret(h[lin[i]]) < h[lin[j]].call <= INT64_MAX && (i == j ==> h[lin[i]].call <= Ret(h[lin[i]]))
    ensures i < j
  {
    assert Precedes(h[lin[i]], h[lin[j]]);
  }

  lemma StaleReadRefutes(h: seq<Operation>, r: nat)
    requires Timed(h) && UniquePuts(h) && r < |h| && IsStale(h, r)
    ensures !Linearizable(h)
  {
    var w1 := Writer(h, h[r].output.value, true).value;
    WriterIsPut(h, h[r].output.value, true);
    var w2 :| 0 <= w2 < |h| && Overwritten(h[w1], h[r], h[w2]);
    if Linearizable(h) {
      assert LinearizableOn(h, h[r].key);
      var lin :| IsLinearization(h, h[r].key, lin);
      var pr, p1 := ReadFollowsWriter(h, lin, r, w1);
      assert w2 in lin;
      var p2 :| 0 <= p2 < |lin| && lin[p2] == w2;
      InTimeOrder(h, h[r].key, lin, p1, p2);
      InTimeOrder(h, h[r].key, lin, p2, pr);
      assert false;
    }
  }

  lemma InversionRefutes(h: seq<Operation>, a: nat, b: nat)
    requires Timed(h) && UniquePuts(h) && a < |h| && b < |h| && IsInversion(h, a, b)
    ensures !Linearizable(h)
  {
    var w, u := Writer(h, h[a].output.value, false).value, Writer(h, h[b].output.value, false).value;
    WriterIsPut(h, h[a].output.value, false);
    WriterIsPut(h, h[b].output.value, false);
    if Linearizable(h) {
      assert LinearizableOn(h, h[a].key);
      var lin :| IsLinearization(h, h[a].key, lin);
      var pa, pw := ReadFollowsWriter(h, lin, a, w);
      var pb, pu := ReadFollowsWriter(h, lin, b, u);
      InTimeOrder(h, h[a].key, lin, pa, pb);
      InTimeOrder(h, h[a].key, lin, pu, pw);
      assert false;
    }
  }

  // ---------- sorting, suffix minimum, binary search ----------

  /** Call and return time of the history's operation number `idx`. */
  datatype Span = Span(call: int, ret: int, idx: nat)

  ghost predicate SortedByCall(xs: seq<Span>) {
    forall i, j | 0 <= i < j < |xs| :: xs[i].call <= xs[j].call
  }

  lemma InsertKeepsElements<T>(xs: seq<T>, p: nat, x: T)
    requires p <= |xs|
    ensures multiset(xs[..p] + [x] + xs[p..]) == multiset(xs) + multiset{x}
  {
    assert xs == xs[..p] + xs[p..];
  }

  lemma InsertKeepsOrder(xs: seq<Span>, p: nat, x: Span)
    requires SortedByCall(xs) && p <= |xs|
    requires p > 0 ==> xs[p - 1].call <= x.call
    requires p < |xs| ==> x.call <= xs[p].call
    ensures SortedByCall(xs[..p] + [x] + xs[p..])
  {
  }

  method InsertByCall(xs: seq<Span>, x: Span) returns (ys: seq<Span>)
    requires SortedByCall(xs)
    ensures multiset(ys) == multiset(xs) + multiset{x}
    ensures SortedByCall(ys)
  {
    var p := |xs|;
    while p > 0 && xs[p - 1].call > x.call
      invariant 0 <= p <= |xs|
      invariant p < |xs| ==> x.call < xs[p].call
    {
      p := p - 1;
    }
    InsertKeepsElements(xs, p, x);
    InsertKeepsOrder(xs, p, x);
    ys := xs[..p] + [x] + xs[p..];
  }

  /** Stands for sort.Slice. */
  method SortByCall(xs: seq<Span>) returns (ys: seq<Span>)
    ensures multiset(ys) == multiset(xs)
    ensures SortedByCall(ys)
  {
    ys := [];
    for n := 0 to |xs|
      invariant multiset(ys) == multiset(xs[..n])
      invariant SortedByCall(ys)
    {
      ys := InsertByCall(ys, xs[n]);
      assert xs[..n + 1] == xs[..n] + [xs[n]];
    }
    assert xs[..|xs|] == xs;
  }

  lemma SameElements<T>(xs: seq<T>, ys: seq<T>)
    requires multiset(xs) == multiset(ys)
    ensures forall x :: x in xs <==> x in ys
    ensures |xs| == |ys|
  {
    forall x ensures x in xs <==> x in ys {
      assert x in xs <==> x in multiset(xs);
      assert x in ys <==> x in multiset(ys);
    }
    assert |multiset(xs)| == |multiset(ys)|;
  }

  /** minRet[i] is the smallest return time among ws[i..], or the largest int64 if there is none. */
  ghost predicate IsSuffixMin(ws: seq<Span>, minRet: seq<int>) {
    && |minRet| == |ws| + 1
    && (forall i | 0 <= i <= |ws| :: forall j | i <= j < |ws| :: minRet[i] <= ws[j].ret)
    && (forall i | 0 <= i <= |ws| :: minRet[i] == INT64_MAX || exists j | i <= j < |ws| :: minRet[i] == ws[j].ret)
  }

  method SuffixMin(ws: seq<Span>) returns (minRet: seq<int>)
    ensures IsSuffixMin(ws, minRet)
  {
    var a := new int[|ws| + 1];
    a[|ws|] := INT64_MAX;
    var i := |ws|;
    while i > 0
      invariant 0 <= i <= |ws|
      invariant forall k | i <= k <= |ws| :: forall j | k <= j < |ws| :: a[k] <= ws[j].ret
      invariant forall k | i <= k <= |ws| :: a[k] == INT64_MAX || exists j | k <= j < |ws| :: a[k] == ws[j].ret
    {
      i := i - 1;
      a[i] := if ws[i].ret < a[i + 1] then ws[i].ret else a[i + 1];
    }
    minRet := a[..];
  }

  /** Stands for sort.Search: the first write that starts strictly after `t`. */
  method FirstAfter(ws: seq<Span>, t: int) returns (i: nat)
    requires SortedByCall(ws)
    ensures i <= |ws|
    ensures forall k | 0 <= k < |ws| :: ws[k].call > t <==> i <= k
  {
    i := 0;
    var j := |ws|;
    while i < j
      invariant 0 <= i <= j <= |ws|
      invariant forall k | 0 <= k < i :: ws[k].call <= t
      invariant forall k | j <= k < |ws| :: ws[k].call > t
    {
      var m := (i + j) / 2;
      if ws[m].call > t {
        j := m;
      } else {
        i := m + 1;
      }
    }
  }

  // ---------- staleReads ----------

  function GetOr(m: map<string, seq<Span>>, k: string): seq<Span> {
    if k in m then m[k] else []
  }

  /** The finished writes to `key`, in history order. */
  function WritesOn(h: seq<Operation>, key: string): seq<Span>
    decreases |h|
  {
    if h == [] then []
    else
      var n := |h| - 1;
      var rest := WritesOn(h[..n], key);
      if FinishedWrite(h[n]) && h[n].key == key then rest + [Span(h[n].call, Ret(h[n]), n)] else rest
  }

  lemma {:induction false} WritesOnElements(h: seq<Operation>, key: string, x: Span)
    ensures x in WritesOn(h, key) <==>
            x.idx < |h| && FinishedWrite(h[x.idx]) && h[x.idx].key == key &&
            x == Span(h[x.idx].call, Ret(h[x.idx]), x.idx)
    decreases |h|
  {
    if h != [] {
      WritesOnElements(h[..|h| - 1], key, x);
    }
  }

  method IndexWrites(h: seq<Operation>) returns (writesByKey: map<string, seq<Span>>, writerOf: map<string, nat>)
    ensures forall k :: GetOr(writesByKey, k) == WritesOn(h, k)
    ensures forall v :: Writer(h, v, true) == if v in writerOf then Some(writerOf[v]) else None
  {
    writesByKey, writerOf := map[], map[];
    for n := 0 to |h|
      invariant forall k :: GetOr(writesByKey, k) == WritesOn(h[..n], k)
      invariant forall v :: Writer(h[..n], v, true) == if v in writerOf then Some(writerOf[v]) else None
    {
      var op := h[n];
      assert h[..n + 1][..n] == h[..n];
      if op.action.Get? || op.ret.None? {
        continue;
      }
      writesByKey := writesByKey[op.key := GetOr(writesByKey, op.key) + [Span(op.call, Ret(op), n)]];
      if op.action.Put? {
        writerOf := writerOf[op.action.value := n];
      }
    }
    assert h[..|h|] == h;
  }

  datatype Index = Index(writes: seq<Span>, minRet: seq<int>)

  ghost predicate IsIndex(ix: Index, ws: seq<Span>) {
    SortedByCall(ix.writes) && IsSuffixMin(ix.writes, ix.minRet) && multiset(ix.writes) == multiset(ws)
  }

  method BuildIndex(writesByKey: map<string, seq<Span>>) returns (idx: map<string, Index>)
    ensures idx.Keys == writesByKey.Keys
    ensures forall k | k in idx :: IsIndex(idx[k], writesByKey[k])
  {
    idx := map[];
    var todo := writesByKey.Keys;
    while todo != {}
      invariant todo <= writesByKey.Keys
      invariant idx.Keys == writesByKey.Keys - todo
      invariant forall k | k in idx :: IsIndex(idx[k], writesByKey[k])
      decreases |todo|
    {
      var k :| k in todo;
      var ws := SortByCall(writesByKey[k]);
      var minRet := SuffixMin(ws);
      idx := idx[k := Index(ws, minRet)];
      todo := todo - {k};
    }
  }

  /** One look at the suffix minimum decides whether some write lies strictly between. */
  lemma SuffixMinDecides(ws: seq<Span>, minRet: seq<int>, i: nat, t: int, call: int)
    requires IsSuffixMin(ws, minRet) && i <= |ws| && call <= INT64_MAX
    requires forall k | 0 <= k < |ws| :: ws[k].call > t <==> i <= k
    ensures i < |ws| && minRet[i] < call <==> exists x | x in ws :: x.call > t && x.ret < call
  {
    if i < |ws| && minRet[i] < call {
      var j :| i <= j < |ws| && minRet[i] == ws[j].ret;
      assert ws[j] in ws;
    }
    if x :| x in ws && x.call > t && x.ret < call {
      var k :| 0 <= k < |ws| && ws[k] == x;
      assert minRet[i] <= ws[k].ret;
    }
  }

  lemma StaleIffBetween(h: seq<Operation>, r: nat, w1: nat, ws: seq<Span>)
    requires r < |h| && w1 < |h| && FoundRead(h[r]) && Writer(h, h[r].output.value, true) == Some(w1)
    requires multiset(ws) == multiset(WritesOn(h, h[r].key))
    ensures IsStale(h, r) <==> exists x | x in ws :: x.call > Ret(h[w1]) && x.ret < h[r].call
  {
    SameElements(ws, WritesOn(h, h[r].key));
    if IsStale(h, r) {
      var w2 :| 0 <= w2 < |h| && Overwritten(h[w1], h[r], h[w2]);
      var x := Span(h[w2].call, Ret(h[w2]), w2);
      WritesOnElements(h, h[r].key, x);
      assert x in ws;
    }
    if x :| x in ws && x.call > Ret(h[w1]) && x.ret < h[r].call {
      WritesOnElements(h, h[r].key, x);
      assert Overwritten(h[w1], h[r], h[x.idx]);
    }
  }

  /** The stale reads of a history. */
  ghost function StaleSet(h: seq<Operation>): set<nat> {
    set r: nat | r < |h| && IsStale(h, r)
  }

  function Below(all: set<nat>, n: nat): set<nat> {
    set r | r in all && r < n
  }

  lemma BelowNext(all: set<nat>, n: nat)
    ensures |Below(all, n + 1)| == |Below(all, n)| + if n in all then 1 else 0
  {
    assert Below(all, n + 1) == if n in all then Below(all, n) + {n} else Below(all, n);
  }

  ghost predicate IndexesHistory(h: seq<Operation>, idx: map<string, Index>, writerOf: map<string, nat>) {
    && (forall k :: IsIndex(if k in idx then idx[k] else Index([], [INT64_MAX]), WritesOn(h, k)))
    && (forall v :: Writer(h, v, true) == if v in writerOf then Some(writerOf[v]) else None)
  }

  /** The body of the second loop over the history. */
  method CheckRead(h: seq<Operation>, n: nat, idx: map<string, Index>, writerOf: map<string, nat>) returns (hit: bool)
    requires n < |h| && h[n].call <= INT64_MAX && IndexesHistory(h, idx, writerOf)
    ensures hit <==> IsStale(h, n)
  {
    var op := h[n];
    if !FoundRead(op) {
      return false;
    }
    assert Writer(h, op.output.value, true) ==
           if op.output.value in writerOf then Some(writerOf[op.output.value]) else None;
    if op.output.value !in writerOf {
      return false;
    }
    WriterIsPut(h, op.output.value, true);
    var w1 := writerOf[op.output.value];
    var ix := if op.key in idx then idx[op.key] else Index([], [INT64_MAX]);
    assert IsIndex(ix, WritesOn(h, op.key));
    var i := FirstAfter(ix.writes, Ret(h[w1]));
    SuffixMinDecides(ix.writes, ix.minRet, i, Ret(h[w1]), op.call);
    StaleIffBetween(h, n, w1, ix.writes);
    hit := i < |ix.writes| && ix.minRet[i] < op.call;
  }

  method PrepareIndex(h: seq<Operation>) returns (idx: map<string, Index>, writerOf: map<string, nat>)
    ensures IndexesHistory(h, idx, writerOf)
  {
    var writesByKey;
    writesByKey, writerOf := IndexWrites(h);
    idx := BuildIndex(writesByKey);
    forall k ensures IsIndex(if k in idx then idx[k] else Index([], [INT64_MAX]), WritesOn(h, k)) {
      assert GetOr(writesByKey, k) == WritesOn(h, k);
    }
  }

  /** The indexed algorithm counts exactly the stale reads. */
  method StaleReads(h: seq<Operation>) returns (count: nat)
    requires Timed(h)
    ensures count == |StaleSet(h)|
  {
    var idx, writerOf := PrepareIndex(h);
    count := 0;
    ghost var all := StaleSet(h);
    for n := 0 to |h|
      invariant count == |Below(all, n)|
    {
      var hit := CheckRead(h, n, idx, writerOf);
      BelowNext(all, n);
      if hit {
        count := count + 1;
      }
    }
    assert Below(all, |h|) == all;
  }

  /** A report of stale reads is a proof that no linearization exists. */
  lemma StaleCountRefutes(h: seq<Operation>)
    requires Timed(h) && UniquePuts(h) && |StaleSet(h)| > 0
    ensures !Linearizable(h)
  {
    var r :| r in StaleSet(h);
    StaleReadRefutes(h, r);
  }

  // ---------- inversions ----------

  method IndexPuts(h: seq<Operation>) returns (writerOf: map<string, nat>)
    ensures forall v :: Writer(h, v, false) == if v in writerOf then Some(writerOf[v]) else None
  {
    writerOf := map[];
    for n := 0 to |h|
      invariant forall v :: Writer(h[..n], v, false) == if v in writerOf then Some(writerOf[v]) else None
    {
      assert h[..n + 1][..n] == h[..n];
      if h[n].action.Put? {
        writerOf := writerOf[h[n].action.value := n];
      }
    }
    assert h[..|h|] == h;
  }

  function SpanOf(h: seq<Operation>, i: nat): Span
    requires i < |h|
  {
    Span(h[i].call, Ret(h[i]), i)
  }

  /** The reads of `key` among the first n operations that show a known write. */
  function ReadsOn(h: seq<Operation>, n: nat, key: string): seq<Span>
    requires n <= |h|
  {
    if n == 0 then []
    else if ReadsKnownWrite(h, n - 1) && h[n - 1].key == key then ReadsOn(h, n - 1, key) + [SpanOf(h, n - 1)]
    else ReadsOn(h, n - 1, key)
  }

  lemma {:induction false} ReadsOnElements(h: seq<Operation>, n: nat, key: string, x: Span)
    requires n <= |h|
    ensures x in ReadsOn(h, n, key) <==>
            x.idx < n && ReadsKnownWrite(h, x.idx) && h[x.idx].key == key && x == SpanOf(h, x.idx)
    ensures multiset(ReadsOn(h, n, key))[x] <= 1
  {
    if n > 0 {
      ReadsOnElements(h, n - 1, key, x);
    }
  }

  method IndexReads(h: seq<Operation>, writerOf: map<string, nat>) returns (readsByKey: map<string, seq<Span>>)
    requires forall v :: Writer(h, v, false) == if v in writerOf then Some(writerOf[v]) else None
    ensures forall k :: GetOr(readsByKey, k) == ReadsOn(h, |h|, k)
  {
    readsByKey := map[];
    for n := 0 to |h|
      invariant forall k :: GetOr(readsByKey, k) == ReadsOn(h, n, k)
    {
      var op := h[n];
      if FoundRead(op) {
        assert Writer(h, op.output.value, false) ==
               if op.output.value in writerOf then Some(writerOf[op.output.value]) else None;
        if op.output.value in writerOf {
          readsByKey := readsByKey[op.key := GetOr(readsByKey, op.key) + [SpanOf(h, n)]];
        }
      }
    }
  }

  /** All inverted pairs of a history. */
  ghost function InversionSet(h: seq<Operation>): set<(nat, nat)> {
    set a: nat, b: nat | a < |h| && b < |h| && IsInversion(h, a, b) :: (a, b)
  }

  /** The pairs of `all` whose first read is in `firsts`. */
  ghost function From(all: set<(nat, nat)>, firsts: set<nat>): set<(nat, nat)> {
    set p | p in all && p.0 in firsts
  }

  /** The pairs of `all` with first read `a` and second read in `seconds`. */
  ghost function Row(all: set<(nat, nat)>, a: nat, seconds: set<nat>): set<(nat, nat)> {
    set p | p in all && p.0 == a && p.1 in seconds
  }

  lemma FromNext(all: set<(nat, nat)>, firsts: set<nat>, a: nat)
    requires a !in firsts
    ensures |From(all, firsts + {a})| == |From(all, firsts)| + |From(all, {a})|
  {
    assert From(all, firsts + {a}) == From(all, firsts) + From(all, {a});
    assert From(all, firsts) !! From(all, {a});
  }

  lemma RowNext(all: set<(nat, nat)>, a: nat, seconds: set<nat>, b: nat)
    requires b !in seconds
    ensures |Row(all, a, seconds + {b})| == |Row(all, a, seconds)| + if (a, b) in all then 1 else 0
  {
    assert Row(all, a, seconds + {b}) ==
           if (a, b) in all then Row(all, a, seconds) + {(a, b)} else Row(all, a, seconds);
  }

  function Ids(rs: seq<Span>): set<nat> {
    set i | 0 <= i < |rs| :: rs[i].idx
  }

  lemma IdsNext(xs: seq<Span>, x: Span)
    ensures Ids(xs + [x]) == Ids(xs) + {x.idx}
  {
    var ys := xs + [x];
    forall id | id in Ids(xs) + {x.idx} ensures id in Ids(ys) {
      if id == x.idx {
        assert ys[|xs|].idx == id;
      } else {
        var i :| 0 <= i < |xs| && xs[i].idx == id;
        assert ys[i].idx == id;
      }
    }
  }

  ghost predicate DistinctIds(rs: seq<Span>) {
    forall i, j | 0 <= i < j < |rs| :: rs[i].idx != rs[j].idx
  }

  /** `rs` lists, by call time, every read of `key` that shows a known write. */
  ghost predicate SortedReads(h: seq<Operation>, key: string, rs: seq<Span>) {
    && SortedByCall(rs) && DistinctIds(rs)
    && (forall i | 0 <= i < |rs| ::
          rs[i].idx < |h| && ReadsKnownWrite(h, rs[i].idx) && h[rs[i].idx].key == key &&
          rs[i] == SpanOf(h, rs[i].idx))
    && (forall r: nat | r < |h| && ReadsKnownWrite(h, r) && h[r].key == key :: SpanOf(h, r) in rs)
  }

  lemma CountedOnce<T>(xs: seq<T>, i: nat, j: nat)
    requires i < j < |xs| && multiset(xs)[xs[i]] <= 1
    ensures xs[i] != xs[j]
  {
    assert xs == xs[..j] + xs[j..];
    assert xs[i] in xs[..j];
    assert xs[j] in xs[j..];
  }

  lemma SortingReads(h: seq<Operation>, key: string, rs: seq<Span>)
    requires SortedByCall(rs) && multiset(rs) == multiset(ReadsOn(h, |h|, key))
    ensures SortedReads(h, key, rs)
  {
    SameElements(rs, ReadsOn(h, |h|, key));
    forall i | 0 <= i < |rs|
      ensures rs[i].idx < |h| && ReadsKnownWrite(h, rs[i].idx) && h[rs[i].idx].key == key
      ensures rs[i] == SpanOf(h, rs[i].idx)
    {
      ReadsOnElements(h, |h|, key, rs[i]);
    }
    forall i, j | 0 <= i < j < |rs| ensures rs[i].idx != rs[j].idx {
      ReadsOnElements(h, |h|, key, rs[i]);
      CountedOnce(rs, i, j);
    }
    forall r: nat | r < |h| && ReadsKnownWrite(h, r) && h[r].key == key ensures SpanOf(h, r) in rs {
      ReadsOnElements(h, |h|, key, SpanOf(h, r));
    }
  }

  lemma RowStep(all: set<(nat, nat)>, a: nat, rs: seq<Span>, i: nat, j: nat)
    requires DistinctIds(rs) && i <= j < |rs|
    ensures |Row(all, a, Ids(rs[i..j + 1]))| == |Row(all, a, Ids(rs[i..j]))| + if (a, rs[j].idx) in all then 1 else 0
  {
    assert rs[i..j + 1] == rs[i..j] + [rs[j]];
    IdsNext(rs[i..j], rs[j]);
    RowNext(all, a, Ids(rs[i..j]), rs[j].idx);
  }

  /** The inner loop for r1 = rs[i]: it only looks at later entries ... */
  method CountPairs(h: seq<Operation>, key: string, rs: seq<Span>, i: nat, writerOf: map<string, nat>)
    returns (count: nat)
    requires DistinctIds(rs) && i < |rs|
    requires forall k | 0 <= k < |rs| ::
               rs[k].idx < |h| && ReadsKnownWrite(h, rs[k].idx) && h[rs[k].idx].key == key
    requires forall v :: Writer(h, v, false) == if v in writerOf then Some(writerOf[v]) else None
    ensures count == |Row(InversionSet(h), rs[i].idx, Ids(rs[i + 1..]))|
  {
    count := 0;
    for j := i + 1 to |rs|
      invariant count == |Row(InversionSet(h), rs[i].idx, Ids(rs[i + 1..j]))|
    {
      var inverted := CheckPair(h, rs[i].idx, rs[j].idx, writerOf);
      RowStep(InversionSet(h), rs[i].idx, rs, i + 1, j);
      if inverted {
        count := count + 1;
      }
    }
    assert rs[i + 1..|rs|] == rs[i + 1..];
  }

  /** ... and misses nothing. */
  method CountRow(h: seq<Operation>, key: string, rs: seq<Span>, i: nat, writerOf: map<string, nat>)
    returns (count: nat)
    requires Timed(h) && SortedReads(h, key, rs) && i < |rs|
    requires forall v :: Writer(h, v, false) == if v in writerOf then Some(writerOf[v]) else None
    ensures count == |From(InversionSet(h), {rs[i].idx})|
  {
    count := CountPairs(h, key, rs, i, writerOf);
    RowIsComplete(h, key, rs, i);
  }

  method CheckPair(h: seq<Operation>, a: nat, b: nat, writerOf: map<string, nat>) returns (inverted: bool)
    requires a < |h| && b < |h| && ReadsKnownWrite(h, a) && ReadsKnownWrite(h, b) && h[a].key == h[b].key
    requires forall v :: Writer(h, v, false) == if v in writerOf then Some(writerOf[v]) else None
    ensures inverted <==> (a, b) in InversionSet(h)
  {
    WriterIsPut(h, h[a].output.value, false);
    WriterIsPut(h, h[b].output.value, false);
    assert Writer(h, h[a].output.value, false) == Some(writerOf[h[a].output.value]);
    assert Writer(h, h[b].output.value, false) == Some(writerOf[h[b].output.value]);
    var w, u := h[writerOf[h[a].output.value]], h[writerOf[h[b].output.value]];
    inverted := !(h[b].call <= Ret(h[a]) || Ret(u) >= w.call);
  }

  lemma RowIsComplete(h: seq<Operation>, key: string, rs: seq<Span>, i: nat)
    requires Timed(h) && SortedReads(h, key, rs) && i < |rs|
    ensures Row(InversionSet(h), rs[i].idx, Ids(rs[i + 1..])) == From(InversionSet(h), {rs[i].idx})
  {
    var a := rs[i].idx;
    forall p | p in From(InversionSet(h), {a}) ensures p.1 in Ids(rs[i + 1..]) {
      assert IsInversion(h, a, p.1);
      assert SpanOf(h, p.1) in rs;
      var j :| 0 <= j < |rs| && rs[j] == SpanOf(h, p.1);
      assert rs[i].call <= Ret(h[a]) < rs[j].call;
      assert rs[i + 1..][j - i - 1] == rs[j];
    }
  }

  method CountKey(h: seq<Operation>, key: string, rs: seq<Span>, writerOf: map<string, nat>) returns (count: nat)
    requires Timed(h) && SortedReads(h, key, rs)
    requires forall v :: Writer(h, v, false) == if v in writerOf then Some(writerOf[v]) else None
    ensures count == |From(InversionSet(h), Ids(rs))|
  {
    ghost var all := InversionSet(h);
    count := 0;
    for i := 0 to |rs|
      invariant count == |From(all, Ids(rs[..i]))|
    {
      var c := CountRow(h, key, rs, i, writerOf);
      assert rs[..i + 1] == rs[..i] + [rs[i]];
      IdsNext(rs[..i], rs[i]);
      FromNext(all, Ids(rs[..i]), rs[i].idx);
      count := count + c;
    }
    assert rs[..|rs|] == rs;
  }

  /** Pairs whose reads are on one of `keys`. */
  ghost function OnKeys(h: seq<Operation>, keys: set<string>): set<(nat, nat)> {
    set p | p in InversionSet(h) && h[p.0].key in keys
  }

  lemma OnKeysNext(h: seq<Operation>, keys: set<string>, k: string, rs: seq<Span>)
    requires k !in keys && SortedReads(h, k, rs)
    ensures |OnKeys(h, keys + {k})| == |OnKeys(h, keys)| + |From(InversionSet(h), Ids(rs))|
  {
    var here := From(InversionSet(h), Ids(rs));
    forall p | p in InversionSet(h) ensures h[p.0].key == k <==> p.0 in Ids(rs) {
      if h[p.0].key == k {
        assert SpanOf(h, p.0) in rs;
      }
    }
    assert OnKeys(h, keys + {k}) == OnKeys(h, keys) + here;
    assert OnKeys(h, keys) !! here;
  }

  /** The nested loops over sorted reads count exactly the inverted pairs. */
  method Inversions(h: seq<Operation>) returns (count: nat)
    requires Timed(h)
    ensures count == |InversionSet(h)|
  {
    var writerOf := IndexPuts(h);
    var readsByKey := IndexReads(h, writerOf);
    count := 0;
    var todo := readsByKey.Keys;
    ghost var done := {};
    while todo != {}
      invariant todo + done == readsByKey.Keys && todo !! done
      invariant count == |OnKeys(h, done)|
      decreases |todo|
    {
      var key :| key in todo;
      var rs := SortByCall(readsByKey[key]);
      assert readsByKey[key] == GetOr(readsByKey, key);
      SortingReads(h, key, rs);
      var c := CountKey(h, key, rs, writerOf);
      OnKeysNext(h, done, key, rs);
      count := count + c;
      todo, done := todo - {key}, done + {key};
    }
    AllOnKeys(h, readsByKey);
  }

  lemma AllOnKeys(h: seq<Operation>, readsByKey: map<string, seq<Span>>)
    requires forall k :: GetOr(readsByKey, k) == ReadsOn(h, |h|, k)
    ensures OnKeys(h, readsByKey.Keys) == InversionSet(h)
  {
    forall p | p in InversionSet(h) ensures h[p.0].key in readsByKey {
      ReadsOnElements(h, |h|, h[p.0].key, SpanOf(h, p.0));
      assert GetOr(readsByKey, h[p.0].key) == ReadsOn(h, |h|, h[p.0].key);
    }
  }

  /** A report of inversions is a proof that no linearization exists. */
  lemma InversionCountRefutes(h: seq<Operation>)
    requires Timed(h) && UniquePuts(h) && |InversionSet(h)| > 0
    ensures !Linearizable(h)
  {
    var p :| p in InversionSet(h);
    InversionRefutes(h, p.0, p.1);
  }
}
