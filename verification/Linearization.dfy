/**
  Linearizable mode is linearizable: from any reachable state of the replication protocol a legal
  order of the operations is built by sorting them by tag.
 */
module Linearization {
  import opened Options
  import opened Versions
  import opened Histories
  import opened Replication

  /** What a client sees of a read that returned `t`: tombstones read as absent. */
  function ResultOf(t: Option<Tag>): Option<string> {
    if t.None? || t.value.tombstone then None else Some(t.value.value)
  }

  /** The operation as the chaos harness records it; only acknowledged operations have returned. */
  function Record(op: Op, key: string): Operation {
    Operation(key, op.action, if op.action.Get? then ResultOf(op.tag) else None, op.start,
              if op.phase.Done? then Some(op.end) else None)
  }

  function HistoryOf(s: State, key: string): seq<Operation> {
    seq(|s.ops|, i requires 0 <= i < |s.ops| => Record(s.ops[i], key))
  }

  /** Operations to be ordered: finished reads, and every write that was stamped. */
  predicate Ordered(op: Op) {
    if op.action.Get? then op.phase.Done? else op.tag.Some?
  }

  /** Tag order; a write before the reads of its tag; then order of invocation. */
  predicate Before(s: State, i: nat, j: nat)
    requires i < |s.ops| && j < |s.ops|
  {
    var a, b := s.ops[i], s.ops[j];
    if a.tag != b.tag then Le(a.tag, b.tag)
    else if a.action.Get? != b.action.Get? then b.action.Get?
    else if a.start != b.start then a.start < b.start
    else i < j
  }

  lemma BeforeIsOrder(s: State, i: nat, j: nat, k: nat)
    requires i < |s.ops| && j < |s.ops| && k < |s.ops|
    ensures i != j ==> Before(s, i, j) || Before(s, j, i)
    ensures Before(s, i, j) && Before(s, j, k) ==> Before(s, i, k)
  {
    LeTotal(s.ops[i].tag, s.ops[j].tag);
    if Le(s.ops[i].tag, s.ops[j].tag) && Le(s.ops[j].tag, s.ops[k].tag) {
      LeTransitive(s.ops[i].tag, s.ops[j].tag, s.ops[k].tag);
      LeTotal(s.ops[j].tag, s.ops[k].tag);
    }
  }

  ghost predicate SortedIds(s: State, lin: seq<nat>) {
    && (forall i | 0 <= i < |lin| :: lin[i] < |s.ops|)
    && (forall i, j | 0 <= i < j < |lin| :: lin[i] != lin[j])
    && (forall i, j | 0 <= i < j < |lin| :: Before(s, lin[i], lin[j]))
  }

  lemma ConsSorted(s: State, x: nat, lin: seq<nat>)
    requires SortedIds(s, lin) && x < |s.ops| && forall y | y in lin :: y != x && Before(s, x, y)
    ensures SortedIds(s, [x] + lin)
  {
    var r := [x] + lin;
    forall i, j | 0 <= i < j < |r| ensures r[i] != r[j] && Before(s, r[i], r[j]) {
      assert r[j] == lin[j - 1] && lin[j - 1] in lin;
      if i > 0 {
        assert r[i] == lin[i - 1];
      }
    }
  }

  lemma {:induction false} InsertSorted(s: State, lin: seq<nat>, x: nat) returns (r: seq<nat>)
    requires SortedIds(s, lin) && x < |s.ops| && x !in lin
    ensures SortedIds(s, r) && forall y :: y in r <==> y == x || y in lin
  {
    if lin == [] || Before(s, x, lin[0]) {
      forall y | y in lin ensures Before(s, x, y) {
        var i :| 0 <= i < |lin| && lin[i] == y;
        BeforeIsOrder(s, x, lin[0], y);
      }
      ConsSorted(s, x, lin);
      r := [x] + lin;
    } else {
      var t := InsertSorted(s, lin[1..], x);
      BeforeIsOrder(s, x, lin[0], x);
      forall y | y in t ensures y != lin[0] && Before(s, lin[0], y) {
      }
      ConsSorted(s, lin[0], t);
      r := [lin[0]] + t;
      assert lin == [lin[0]] + lin[1..];
    }
  }

  lemma {:induction false} SortIds(s: State, ids: set<nat>) returns (lin: seq<nat>)
    requires forall i | i in ids :: i < |s.ops|
    ensures SortedIds(s, lin) && forall i :: i in lin <==> i in ids
  {
    if ids == {} {
      lin := [];
    } else {
      var x :| x in ids;
      lin := SortIds(s, ids - {x});
      lin := InsertSorted(s, lin, x);
    }
  }

  /** `lin` sorts exactly the operations to be ordered. */
  ghost predicate SortsAll(s: State, lin: seq<nat>) {
    SortedIds(s, lin) && forall i: nat :: i in lin <==> i < |s.ops| && Ordered(s.ops[i])
  }

  // ---------- what the protocol guarantees about tags ----------

  ghost predicate OpTagOk(s: State, op: Op) {
    && (op.phase.Done? ==> op.start <= op.end)
    && (!op.action.Get? ==> (op.phase.Done? ==> op.tag.Some?) &&
                            (op.tag.Some? ==> op.tag.value == NewTag(op.action, op.tag.value.version)))
    && (op.action.Get? && op.tag.Some? ==> exists w: nat :: Stamped(s, w, op.tag.value))
  }

  /** An operation invoked after another finished: reads have no smaller tag, writes a larger version. */
  ghost predicate TagsFollowTime(s: State, i: nat, j: nat)
    requires i < |s.ops| && j < |s.ops|
  {
    s.ops[i].phase.Done? && s.ops[i].end < s.ops[j].start && Ordered(s.ops[j]) ==>
      if s.ops[j].action.Get? then Le(s.ops[i].tag, s.ops[j].tag)
      else VersionBelow(s.ops[i].tag, s.ops[j].tag.value.version)
  }

  ghost predicate TagOrder(s: State) {
    && (forall i | 0 <= i < |s.ops| :: OpTagOk(s, s.ops[i]))
    && (forall i, j | 0 <= i < |s.ops| && 0 <= j < |s.ops| :: TagsFollowTime(s, i, j))
  }

  lemma InvGivesTagOrder(sys: System, s: State)
    requires Inv(sys, s) && Intersecting(sys) && Strong(sys)
    ensures TagOrder(s)
  {
    forall i | 0 <= i < |s.ops| ensures OpTagOk(s, s.ops[i]) {
      assert OpInv(sys, s, s.ops[i]);
    }
    forall i, j | 0 <= i < |s.ops| && 0 <= j < |s.ops| ensures TagsFollowTime(s, i, j) {
      if s.ops[i].phase.Done? && s.ops[i].end < s.ops[j].start && Ordered(s.ops[j]) {
        if s.ops[j].action.Get? {
          LaterReadSees(sys, s, i, j);
        } else {
          LaterWriteAbove(sys, s, i, j);
        }
      }
    }
  }

  // ---------- the sorted order is a linearization ----------

  /** A read at position n has a predecessor with the same tag, unless it found nothing at all. */
  lemma ReadFollowsItsTag(s: State, lin: seq<nat>, n: nat)
    requires TagOrder(s) && SortsAll(s, lin) && n < |lin| && s.ops[lin[n]].action.Get?
    ensures n > 0 ==> s.ops[lin[n - 1]].tag == s.ops[lin[n]].tag
    ensures n == 0 ==> s.ops[lin[n]].tag.None?
  {
    var t := s.ops[lin[n]].tag;
    assert OpTagOk(s, s.ops[lin[n]]);
    if t.Some? {
      var w: nat :| Stamped(s, w, t.value);
      assert w in lin;
      var p :| 0 <= p < |lin| && lin[p] == w;
      assert p < n;
      assert p == n - 1 || Before(s, lin[p], lin[n - 1]);
      LeTotal(s.ops[lin[n - 1]].tag, t);
    }
    assert n > 0 ==> Before(s, lin[n - 1], lin[n]);
  }

  lemma WriteSetsTag(s: State, op: Op, key: string, st: Option<string>)
    requires OpTagOk(s, op) && !op.action.Get? && op.tag.Some?
    ensures Histories.Step(st, Record(op, key)) == (true, ResultOf(op.tag))
  {
  }

  lemma NextInOrder(s: State, key: string, lin: seq<nat>, n: nat, st: Option<string>)
    requires TagOrder(s) && SortsAll(s, lin) && n < |lin|
    requires st == if n == 0 then None else ResultOf(s.ops[lin[n - 1]].tag)
    ensures Histories.Step(st, Record(s.ops[lin[n]], key)) == (true, ResultOf(s.ops[lin[n]].tag))
  {
    var op := s.ops[lin[n]];
    assert lin[n] in lin;
    if op.action.Get? {
      ReadFollowsItsTag(s, lin, n);
    } else {
      WriteSetsTag(s, op, key, st);
    }
  }

  /** Executing the sorted operations, the register always holds the value of the last tag. */
  lemma {:induction false} SortedIsLegal(s: State, key: string, lin: seq<nat>, n: nat)
    requires TagOrder(s) && SortsAll(s, lin) && n <= |lin|
    ensures ValidIndices(HistoryOf(s, key), lin[..n]) && Legal(HistoryOf(s, key), lin[..n])
    ensures After(HistoryOf(s, key), lin[..n]) == if n == 0 then None else ResultOf(s.ops[lin[n - 1]].tag)
  {
    if n > 0 {
      SortedIsLegal(s, key, lin, n - 1);
      assert lin[..n][..n - 1] == lin[..n - 1];
      NextInOrder(s, key, lin, n - 1, After(HistoryOf(s, key), lin[..n - 1]));
    }
  }

  /** The sorted order never contradicts real time. */
  lemma SortedRespectsTime(s: State, early: nat, late: nat)
    requires TagOrder(s) && early < |s.ops| && late < |s.ops|
    requires Ordered(s.ops[early]) && Before(s, early, late)
    ensures !(s.ops[late].phase.Done? && s.ops[late].end < s.ops[early].start)
  {
    assert TagsFollowTime(s, late, early) && OpTagOk(s, s.ops[late]);
    LeTotal(s.ops[early].tag, s.ops[late].tag);
  }

  lemma TagOrderLinearizes(s: State, key: string) returns (lin: seq<nat>)
    requires TagOrder(s)
    ensures IsLinearization(HistoryOf(s, key), key, lin)
  {
    var h := HistoryOf(s, key);
    var ids := set i: nat | i < |s.ops| && Ordered(s.ops[i]);
    lin := SortIds(s, ids);
    assert lin[..|lin|] == lin;
    SortedIsLegal(s, key, lin, |lin|);
    forall k: nat | k < |h| && h[k].ret.Some? ensures k in lin {
      assert OpTagOk(s, s.ops[k]);
    }
    forall i, j | 0 <= i < j < |lin| ensures !Precedes(h[lin[j]], h[lin[i]]) {
      assert lin[i] in lin && lin[j] in lin;
      SortedRespectsTime(s, lin[i], lin[j]);
    }
  }

  lemma StateLinearizable(s: State, key: string)
    requires TagOrder(s)
    ensures Linearizable(HistoryOf(s, key))
  {
    var h := HistoryOf(s, key);
    var lin := TagOrderLinearizes(s, key);
    forall other ensures LinearizableOn(h, other) {
      if other != key {
        assert IsLinearization(h, other, []);
      }
    }
  }

  /**
    In linearizable mode with intersecting quorums, and on a node that is alone, the history of
    every run, cut off at any point, is linearizable against the register model.
   */
  lemma RunsAreLinearizable(sys: System, trace: seq<State>, n: nat, key: string)
    requires IsRun(sys, trace) && n < |trace|
    requires Strong(sys) && Intersecting(sys)
    ensures Linearizable(HistoryOf(trace[n], key))
  {
    RunInv(sys, trace, n);
    InvGivesTagOrder(sys, trace[n]);
    StateLinearizable(trace[n], key);
  }
}
