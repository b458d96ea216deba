/**
  Operation histories and linearizability against the register specification of chaos/model.go.
 */
module Histories {
  import opened Options

  /** The input of an operation; deletes carry no value. */
  datatype Action = Get | Put(value: string) | Del

  /**
    One recorded operation.  `output` is the value a read returned (None: not found).  `ret` is
    None for an operation whose outcome is unknown, which may take effect at any later time.
   */
  datatype Operation = Operation(key: string, action: Action, output: Option<string>, call: int, ret: Option<int>)

  /** The model's transition: whether the output is legal, and the next register state. */
  function Step(st: Option<string>, op: Operation): (bool, Option<string>) {
    match op.action
    case Get => (op.output == st, st)
    case Put(v) => (true, Some(v))
    case Del => (true, None)
  }

  predicate ValidIndices(h: seq<Operation>, lin: seq<nat>) {
    forall i | 0 <= i < |lin| :: lin[i] < |h|
  }

  /** Register state after executing `lin` in order, starting from the absent key. */
  function After(h: seq<Operation>, lin: seq<nat>): Option<string>
    requires ValidIndices(h, lin)
    decreases |lin|
  {
    if lin == [] then None
    else Step(After(h, lin[..|lin| - 1]), h[lin[|lin| - 1]]).1
  }

  predicate Legal(h: seq<Operation>, lin: seq<nat>)
    requires ValidIndices(h, lin)
    decreases |lin|
  {
    lin == [] ||
    (Legal(h, lin[..|lin| - 1]) && Step(After(h, lin[..|lin| - 1]), h[lin[|lin| - 1]]).0)
  }

  /** `a` returned before `b` was called. */
  predicate Precedes(a: Operation, b: Operation) {
    a.ret.Some? && a.ret.value < b.call
  }

  /**
    `lin` orders operations on `key`: all that returned, and possibly some of unknown outcome,
    each at most once, never against real time, and legally for the register.
   */
  ghost predicate IsLinearization(h: seq<Operation>, key: string, lin: seq<nat>) {
    && ValidIndices(h, lin)
    && (forall i | 0 <= i < |lin| :: h[lin[i]].key == key)
    && (forall i, j | 0 <= i < j < |lin| :: lin[i] != lin[j])
    && (forall k: nat | k < |h| && h[k].key == key && h[k].ret.Some? :: k in lin)
    && (forall i, j | 0 <= i < j < |lin| :: !Precedes(h[lin[j]], h[lin[i]]))
    && Legal(h, lin)
  }

  /** Histories are partitioned by key: linearizability is compositional. */
  ghost predicate Linearizable(h: seq<Operation>) {
    forall key :: LinearizableOn(h, key)
  }

  ghost predicate LinearizableOn(h: seq<Operation>, key: string) {
    exists lin :: IsLinearization(h, key, lin)
  }

  // ---------- consequences used by both users of this module ----------

  lemma {:induction false} LegalPrefix(h: seq<Operation>, lin: seq<nat>, n: nat)
    requires ValidIndices(h, lin) && Legal(h, lin) && n <= |lin|
    ensures Legal(h, lin[..n])
    decreases |lin|
  {
    if n < |lin| {
      LegalPrefix(h, lin[..|lin| - 1], n);
      assert lin[..|lin| - 1][..n] == lin[..n];
    } else {
      assert lin[..n] == lin;
    }
  }

  /** A read placed at position `p` returns exactly the state left by what precedes it. */
  lemma LegalRead(h: seq<Operation>, lin: seq<nat>, p: nat)
    requires ValidIndices(h, lin) && Legal(h, lin) && p < |lin| && h[lin[p]].action.Get?
    ensures h[lin[p]].output == After(h, lin[..p])
  {
    LegalPrefix(h, lin, p + 1);
    assert lin[..p + 1][..p] == lin[..p];
  }

  /** A found value was put by some operation in the sequence, with only reads after it. */
  lemma {:induction false} FoundValueWasPut(h: seq<Operation>, lin: seq<nat>) returns (w: nat)
    requires ValidIndices(h, lin) && After(h, lin).Some?
    ensures w < |lin| && h[lin[w]].action == Put(After(h, lin).value)
    ensures forall i | w < i < |lin| :: h[lin[i]].action.Get?
    decreases |lin|
  {
    var n := |lin| - 1;
    if h[lin[n]].action.Get? {
      w := FoundValueWasPut(h, lin[..n]);
      assert lin[..n][w] == lin[w];
      forall i | w < i < |lin| ensures h[lin[i]].action.Get? {
        if i < n {
          assert lin[..n][i] == lin[i];
        }
      }
    } else {
      w := n;
    }
  }
}
