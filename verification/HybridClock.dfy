/**
  The hybrid logical clock under every interleaving of its compare-exchange loops
  (include/shardcache/hybrid_clock.hpp), on any number of nodes exchanging timestamps.

  Arithmetic is on 64-bit words and wraps; the theorems say exactly when that shows.
 */
module HybridClock {
  import opened Quorums
  import opened Words

  const LOGICAL := 0x1_0000  // 16 logical bits

  datatype Event = Issued(ts: nat) | Observed(ts: nat)

  datatype Kind = Now(physical: nat) | Merge(remote: nat)

  /** A call in progress: not yet loaded, holding a loaded value of `last_`, or finished. */
  datatype Progress = Begun | Loaded(last: nat) | Finished

  datatype Call = Call(node: NodeId, kind: Kind, progress: Progress)

  /** `log` lists, per clock, the finished calls in the order they took effect. */
  datatype State = State(
    last: map<NodeId, nat>, calls: seq<Call>, log: map<NodeId, seq<Event>>, sent: set<nat>, maxPhysical: nat)

  datatype Step =
    | BeginNow(node: NodeId, physical: nat)
    | BeginObserve(node: NodeId, remote: nat)
    | Load(id: nat, value: nat)
    | Retry(id: nat)       // the exchange fails, possibly spuriously, and reloads
    | Exchange(id: nat)    // the exchange succeeds
    | Skip(id: nat)        // observe: the loaded value already covers the remote one

  function Last(s: State, n: NodeId): nat { if n in s.last then s.last[n] else 0 }

  function Log(s: State, n: NodeId): seq<Event> { if n in s.log then s.log[n] else [] }

  function NextWord(physical: nat, last: nat): nat {
    var p := (physical * LOGICAL) % WORD;
    if p > last then p else (last + 1) % WORD
  }

  function Target(c: Call): nat
    requires c.progress.Loaded?
  {
    if c.kind.Now? then NextWord(c.kind.physical, c.progress.last) else c.kind.remote
  }

  predicate Running(s: State, id: nat) {
    id < |s.calls| && s.calls[id].progress.Loaded?
  }

  predicate Enabled(s: State, step: Step) {
    match step
    case BeginNow(_, _) => true
    case BeginObserve(_, remote) => remote in s.sent
    // a relaxed load may return an old value; the clock never decreases
    case Load(id, value) => id < |s.calls| && s.calls[id].progress.Begun? && value <= Last(s, s.calls[id].node)
    case Retry(id) => Running(s, id) &&
      (s.calls[id].kind.Merge? ==> s.calls[id].kind.remote > s.calls[id].progress.last)
    case Exchange(id) =>
      && Running(s, id) && s.calls[id].progress.last == Last(s, s.calls[id].node)
      && (s.calls[id].kind.Merge? ==> s.calls[id].kind.remote > s.calls[id].progress.last)
    case Skip(id) =>
      Running(s, id) && s.calls[id].kind.Merge? && s.calls[id].kind.remote <= s.calls[id].progress.last
  }

  function Finish(s: State, id: nat, last: nat): State
    requires Running(s, id)
  {
    var c := s.calls[id];
    s.(calls := s.calls[id := c.(progress := Finished)],
       last := s.last[c.node := last],
       log := s.log[c.node := Log(s, c.node) + [if c.kind.Now? then Issued(last) else Observed(c.kind.remote)]],
       sent := if c.kind.Now? then s.sent + {last} else s.sent)
  }

  function Next(s: State, step: Step): State
    requires Enabled(s, step)
  {
    match step
    case BeginNow(n, p) =>
      s.(calls := s.calls + [Call(n, Now(p), Begun)], maxPhysical := Max(s.maxPhysical, p))
    case BeginObserve(n, r) => s.(calls := s.calls + [Call(n, Merge(r), Begun)])
    case Load(id, value) => s.(calls := s.calls[id := s.calls[id].(progress := Loaded(value))])
    case Retry(id) => s.(calls := s.calls[id := s.calls[id].(progress := Loaded(Last(s, s.calls[id].node)))])
    case Exchange(id) => Finish(s, id, Target(s.calls[id]))
    case Skip(id) => Finish(s, id, Last(s, s.calls[id].node))
  }

  const Init := State(map[], [], map[], {}, 0)

  ghost predicate CanStep(s: State, s': State) {
    exists step :: Enabled(s, step) && s' == Next(s, step)
  }

  /** The i-th state is followed by one that it can step to. */
  ghost predicate Follows(trace: seq<State>, i: nat)
    requires i < |trace| - 1
  {
    CanStep(trace[i], trace[i + 1])
  }

  ghost predicate IsRun(trace: seq<State>) {
    && |trace| > 0 && trace[0] == Init
    && forall i | 0 <= i < |trace| - 1 :: Follows(trace, i)
  }

  // ---------- the bound ----------

  function NowCalls(s: State): set<nat> {
    set i: nat | i < |s.calls| && s.calls[i].kind.Now?
  }

  function IssuedCalls(s: State): set<nat> {
    set i: nat | i < |s.calls| && s.calls[i].kind.Now? && s.calls[i].progress.Finished?
  }

  const READINGS := WORD / LOGICAL  // a reading keeps 48 bits when it is shifted

  /** The first timestamp of a clock that never reads above `physical`, at its largest. */
  function Base(physical: nat): (b: nat)
    ensures b >= 1
  {
    var top := (if physical < READINGS then physical else READINGS - 1) * LOGICAL;
    if top == 0 then 1 else top
  }

  lemma BaseGrows(p: nat, physical: nat)
    requires p <= physical
    ensures Base(p) <= Base(physical)
  {
  }

  lemma ModOf(q: nat, r: nat)
    requires r < WORD
    ensures (q * WORD + r) % WORD == r
  {
  }

  /** Shifting keeps the low 48 bits of a reading. */
  lemma ShiftKeeps(q: nat, r: nat)
    requires r < READINGS
    ensures ((q * READINGS + r) * LOGICAL) % WORD == r * LOGICAL
  {
    assert (q * READINGS + r) * LOGICAL == q * WORD + r * LOGICAL;
    ModOf(q, r * LOGICAL);
  }

  lemma ShiftedWithinBase(p: nat, physical: nat)
    requires p <= physical
    ensures (p * LOGICAL) % WORD <= Base(physical)
  {
    ShiftKeeps(p / READINGS, p % READINGS);
    assert p / READINGS * READINGS + p % READINGS == p;
  }

  /** The largest first timestamp plus the number of now() calls: one above what they can issue. */
  function Bound(s: State): nat {
    Base(s.maxPhysical) + |NowCalls(s)|
  }

  /** What the finished calls can have issued. */
  function Used(s: State): nat {
    if IssuedCalls(s) == {} then 0 else Base(s.maxPhysical) + |IssuedCalls(s)| - 1
  }

  lemma UsedWithinBound(s: State)
    ensures Used(s) < Bound(s)
  {
    SubsetSize(IssuedCalls(s), NowCalls(s));
  }

  lemma CallsGrow(s: State, step: Step)
    requires Enabled(s, step)
    ensures var s' := Next(s, step);
      && s.maxPhysical <= s'.maxPhysical
      && NowCalls(s) <= NowCalls(s') && IssuedCalls(s) <= IssuedCalls(s')
  {
  }

  lemma ExchangeCounts(s: State, id: nat)
    requires Enabled(s, Exchange(id)) && s.calls[id].kind.Now?
    ensures var s' := Next(s, Exchange(id));
      && s'.maxPhysical == s.maxPhysical
      && NowCalls(s') == NowCalls(s) && |IssuedCalls(s')| == |IssuedCalls(s)| + 1
  {
    assert IssuedCalls(Next(s, Exchange(id))) == IssuedCalls(s) + {id};
  }

  lemma StepBounds(s: State, step: Step)
    requires Enabled(s, step)
    ensures Used(s) <= Used(Next(s, step)) && Bound(s) <= Bound(Next(s, step))
    ensures step.Exchange? && s.calls[step.id].kind.Now? ==>
              && Used(Next(s, step)) == Base(s.maxPhysical) + |IssuedCalls(s)|
              && Used(s) < Used(Next(s, step)) < Bound(s)
  {
    var s' := Next(s, step);
    CallsGrow(s, step);
    BaseGrows(s.maxPhysical, s'.maxPhysical);
    SubsetSize(NowCalls(s), NowCalls(s'));
    SubsetSize(IssuedCalls(s), IssuedCalls(s'));
    if step.Exchange? && s.calls[step.id].kind.Now? {
      ExchangeCounts(s, step.id);
      UsedWithinBound(s');
    }
  }

  // ---------- the invariant ----------

  ghost predicate Ordered(log: seq<Event>) {
    forall i, j | 0 <= i < j < |log| :: log[j].Issued? ==> log[i].ts < log[j].ts
  }

  ghost predicate ClockInv(s: State, n: NodeId) {
    && Last(s, n) <= Used(s)
    && Ordered(Log(s, n))
    && forall i | 0 <= i < |Log(s, n)| :: Log(s, n)[i].ts <= Last(s, n)
  }

  ghost predicate CallInv(s: State, c: Call) {
    && (c.kind.Now? ==> c.kind.physical <= s.maxPhysical)
    && (c.kind.Merge? ==> c.kind.remote <= Used(s))
    && (c.progress.Loaded? ==> c.progress.last <= Last(s, c.node))
  }

  ghost predicate Inv(s: State) {
    && (forall n :: ClockInv(s, n))
    && (forall i | 0 <= i < |s.calls| :: CallInv(s, s.calls[i]))
    && (forall t | t in s.sent :: t <= Used(s))
  }

  /** Below the bound a successful exchange moves the clock strictly forward. */
  lemma ExchangeMovesForward(s: State, step: Step)
    requires Inv(s) && Enabled(s, step) && step.Exchange? && Bound(s) <= WORD
    ensures Last(s, s.calls[step.id].node) < Target(s.calls[step.id]) <= Used(Next(s, step))
  {
    StepBounds(s, step);
    var c := s.calls[step.id];
    assert CallInv(s, c) && ClockInv(s, c.node);
    if c.kind.Now? {
      ShiftedWithinBase(c.kind.physical, s.maxPhysical);
    }
  }

  lemma LogGrows(log: seq<Event>, last: nat, last': nat, e: Event)
    requires Ordered(log) && forall i | 0 <= i < |log| :: log[i].ts <= last
    requires last <= last' && e.ts <= last' && (e.Issued? ==> last < e.ts)
    ensures Ordered(log + [e]) && forall i | 0 <= i < |log + [e]| :: (log + [e])[i].ts <= last'
  {
  }

  lemma ClockKept(s: State, step: Step, n: NodeId)
    requires Inv(s) && Enabled(s, step) && Bound(s) <= WORD
    ensures ClockInv(Next(s, step), n)
  {
    var s' := Next(s, step);
    StepBounds(s, step);
    assert ClockInv(s, n);
    if (step.Exchange? || step.Skip?) && s.calls[step.id].node == n {
      var c := s.calls[step.id];
      if step.Exchange? {
        ExchangeMovesForward(s, step);
      } else {
        assert CallInv(s, c);
      }
      var e := if c.kind.Now? then Issued(Last(s', n)) else Observed(c.kind.remote);
      LogGrows(Log(s, n), Last(s, n), Last(s', n), e);
    } else {
      assert Log(s', n) == Log(s, n) && Last(s', n) == Last(s, n);
    }
  }

  lemma InvKept(s: State, step: Step)
    requires Inv(s) && Enabled(s, step) && Bound(s) <= WORD
    ensures Inv(Next(s, step))
  {
    var s' := Next(s, step);
    StepBounds(s, step);
    if step.Exchange? {
      ExchangeMovesForward(s, step);
    }
    forall n ensures ClockInv(s', n) {
      ClockKept(s, step, n);
    }
    forall i | 0 <= i < |s'.calls| ensures CallInv(s', s'.calls[i]) {
      assert i < |s.calls| ==> CallInv(s, s.calls[i]);
    }
  }

  lemma {:induction false} RunInv(trace: seq<State>, i: nat, n: nat)
    requires IsRun(trace) && i <= n < |trace| && Bound(trace[n]) <= WORD
    ensures Inv(trace[i]) && Bound(trace[i]) <= Bound(trace[n])
    decreases n, i
  {
    if i == n && n > 0 {
      assert Follows(trace, n - 1);
      var step :| Enabled(trace[n - 1], step) && trace[n] == Next(trace[n - 1], step);
      StepBounds(trace[n - 1], step);
      RunInv(trace, n - 1, n - 1);
      InvKept(trace[n - 1], step);
    } else if i < n {
      assert Follows(trace, n - 1);
      var step :| Enabled(trace[n - 1], step) && trace[n] == Next(trace[n - 1], step);
      StepBounds(trace[n - 1], step);
      RunInv(trace, i, n - 1);
    }
  }

  /**
    While the bound fits a word: every clock and every timestamp is below it, and on every clock each
    timestamp issued is strictly above everything issued or observed there before.
   */
  lemma TimestampsIncrease(trace: seq<State>, n: nat, node: NodeId)
    requires IsRun(trace) && n < |trace| && Bound(trace[n]) <= WORD
    ensures Last(trace[n], node) < Bound(trace[n])
    ensures forall t | t in trace[n].sent :: t < Bound(trace[n])
    ensures Ordered(Log(trace[n], node))
  {
    RunInv(trace, n, n);
    UsedWithinBound(trace[n]);
    assert ClockInv(trace[n], node);
  }

  // ---------- past the bound ----------

  ghost predicate Reach(s: State) {
    exists trace :: IsRun(trace) && trace[|trace| - 1] == s
  }

  lemma Extend(s: State, step: Step)
    requires Reach(s) && Enabled(s, step)
    ensures Reach(Next(s, step))
  {
    var trace :| IsRun(trace) && trace[|trace| - 1] == s;
    var longer := trace + [Next(s, step)];
    forall i | 0 <= i < |longer| - 1 ensures Follows(longer, i) {
      if i < |trace| - 1 {
        assert Follows(trace, i);
      }
    }
    assert IsRun(longer);
  }

  /** A call of now() with nothing in between. */
  lemma OneNow(s: State, node: NodeId, physical: nat) returns (s': State)
    requires Reach(s)
    ensures Reach(s') && Last(s', node) == NextWord(physical, Last(s, node))
    ensures Log(s', node) == Log(s, node) + [Issued(NextWord(physical, Last(s, node)))]
    ensures |s'.calls| == |s.calls| + 1 && s'.maxPhysical == Max(s.maxPhysical, physical)
  {
    var id := |s.calls|;
    Extend(s, BeginNow(node, physical));
    var s1 := Next(s, BeginNow(node, physical));
    Extend(s1, Load(id, Last(s, node)));
    var s2 := Next(s1, Load(id, Last(s, node)));
    Extend(s2, Exchange(id));
    s' := Next(s2, Exchange(id));
  }

  /** The first `calls` timestamps of a clock that always reads `physical`. */
  lemma {:induction false} CountUp(node: NodeId, physical: nat, calls: nat) returns (s: State)
    requires physical < READINGS && calls >= 1 && Base(physical) + calls <= WORD
    ensures Reach(s) && |s.calls| == calls && s.maxPhysical <= physical
    ensures Last(s, node) == Base(physical) + calls - 1
    ensures Log(s, node) != [] && Log(s, node)[0] == Issued(Base(physical))
    decreases calls
  {
    assert physical * LOGICAL < WORD;
    if calls == 1 {
      assert IsRun([Init]);
      assert Reach(Init);
      s := OneNow(Init, node, physical);
    } else {
      var s1 := CountUp(node, physical, calls - 1);
      s := OneNow(s1, node, physical);
    }
  }

  function Below(n: nat): set<nat> {
    if n == 0 then {} else Below(n - 1) + {n - 1}
  }

  lemma {:induction false} BelowSize(n: nat)
    ensures |Below(n)| == n && forall i: nat :: i in Below(n) <==> i < n
  {
    if n > 0 {
      BelowSize(n - 1);
    }
  }

  /** Every run with readings up to `physical` and at most `calls` calls of now() keeps every clock in order. */
  ghost predicate AlwaysOrdered(physical: nat, calls: nat) {
    forall s, node | Reach(s) && s.maxPhysical <= physical && |NowCalls(s)| <= calls :: Ordered(Log(s, node))
  }

  /** A run whose last timestamp starts again from 0. */
  lemma WrapReached(node: NodeId, physical: nat, calls: nat) returns (s: State)
    requires Base(physical) + calls > WORD
    ensures Reach(s) && s.maxPhysical <= physical && |NowCalls(s)| <= calls && !Ordered(Log(s, node))
  {
    var p := if physical < READINGS then physical else READINGS - 1;
    var n := WORD - Base(p);
    var s1 := CountUp(node, p, n);
    s := OneNow(s1, node, p);
    assert p * LOGICAL < WORD;
    BelowSize(|s.calls|);
    SubsetSize(NowCalls(s), Below(|s.calls|));
    var log := Log(s, node);
    assert log[|log| - 1] == Issued(0) && log[0] == Issued(Base(p));
  }

  /** Timestamps increase over all such runs if and only if the bound fits a word. */
  lemma TimestampsIncreaseExactly(physical: nat, calls: nat)
    ensures AlwaysOrdered(physical, calls) <==> Base(physical) + calls <= WORD
  {
    if Base(physical) + calls <= WORD {
      forall s, node | Reach(s) && s.maxPhysical <= physical && |NowCalls(s)| <= calls ensures Ordered(Log(s, node)) {
        var trace :| IsRun(trace) && trace[|trace| - 1] == s;
        BaseGrows(s.maxPhysical, physical);
        TimestampsIncrease(trace, |trace| - 1, node);
      }
    } else {
      var s := WrapReached("", physical, calls);
    }
  }
}
