/**
  Hinted handoff for one node (src/cluster.cpp): a capped queue of missed writes, and a replayer that
  takes a batch out, sends it oldest first, and puts back what it could not deliver.
 */
module Hints {
  import opened Options
  import opened Versions
  import LruLists

  const BATCH: nat := 1024

  /** Serial numbers record insertion order; the source has no such field. */
  datatype Hint = Hint(serial: nat, key: string, value: VersionedValue, deadline: Option<int>)

  datatype Phase = Idle | Sending(now: int) | Failed

  /** The queue, the replayer's batch, everything ever added, and what became of it. */
  datatype State = State(
    cap: nat, queue: seq<Hint>, phase: Phase, batch: seq<Hint>,
    added: seq<Hint>, log: seq<Hint>, dropped: set<nat>, expired: set<nat>, discarded: set<nat>)

  datatype Step =
    | Add(key: string, value: VersionedValue, at: int)
    | Take(now: int)
    | Discard
    | Skip
    | Send(ok: bool)
    | PutBack
    | Finish

  function Serials(q: seq<Hint>): set<nat> {
    set h | h in q :: h.serial
  }

  function NewHint(s: State, key: string, v: VersionedValue, at: int): Hint {
    Hint(|s.added|, key, v, if v.ttl.Some? then Some(at + v.ttl.value * LruLists.TICKS_PER_MS) else None)
  }

  predicate IsLate(h: Hint, now: int) {
    h.deadline.Some? && h.deadline.value <= now
  }

  /** The remaining time to live goes out with the hint. */
  function Outgoing(h: Hint, now: int): Hint {
    if h.deadline.None? then h
    else h.(value := h.value.(ttl := Some((h.deadline.value - now) / LruLists.TICKS_PER_MS)))
  }

  function BatchSize(queue: seq<Hint>): nat {
    if |queue| < BATCH then |queue| else BATCH
  }

  /** Adding at the back drops the oldest queued hint when the queue is at its cap. */
  function Enqueued(s: State, h: Hint): State
    requires s.cap >= 1
  {
    if |s.queue| >= s.cap
    then s.(queue := s.queue[1..] + [h], added := s.added + [h], dropped := s.dropped + {s.queue[0].serial})
    else s.(queue := s.queue + [h], added := s.added + [h])
  }

  predicate Enabled(s: State, step: Step) {
    match step
    case Add(_, _, _) => s.cap >= 1
    case Take(_) => s.phase.Idle?
    case Discard => s.phase.Idle?
    case Skip => s.phase.Sending? && s.batch != [] && IsLate(s.batch[0], s.phase.now)
    case Send(_) => s.phase.Sending? && s.batch != [] && !IsLate(s.batch[0], s.phase.now)
    case PutBack => s.phase.Failed?
    case Finish => s.phase.Sending? && s.batch == []
  }

  function Next(s: State, step: Step): State
    requires Enabled(s, step)
  {
    match step
    case Add(key, v, at) => Enqueued(s, NewHint(s, key, v, at))
    case Take(now) =>
      var n := BatchSize(s.queue);
      s.(queue := s.queue[n..], batch := s.queue[..n], phase := Sending(now))
    case Discard => s.(queue := [], discarded := s.discarded + Serials(s.queue))
    case Skip => s.(batch := s.batch[1..], expired := s.expired + {s.batch[0].serial})
    case Send(ok) =>
      var h := Outgoing(s.batch[0], s.phase.now);
      if ok then s.(batch := s.batch[1..], log := s.log + [h])
      else s.(batch := [h] + s.batch[1..], phase := Failed)
    case PutBack => s.(queue := s.batch + s.queue, batch := [], phase := Idle)
    case Finish => s.(phase := Idle)
  }

  ghost predicate CanStep(s: State, s': State) {
    exists step :: Enabled(s, step) && s' == Next(s, step)
  }

  predicate IsEmpty(s: State) {
    s.queue == s.batch == s.added == s.log == [] && s.dropped == s.expired == s.discarded == {} && s.phase.Idle?
  }

  /** The i-th state is followed by one that it can step to. */
  ghost predicate Follows(trace: seq<State>, i: nat)
    requires i < |trace| - 1
  {
    CanStep(trace[i], trace[i + 1])
  }

  ghost predicate IsRun(trace: seq<State>) {
    && |trace| > 0 && IsEmpty(trace[0]) && trace[0].cap >= 1
    && forall i | 0 <= i < |trace| - 1 :: Follows(trace, i)
  }

  // ---------- order ----------

  ghost predicate Sorted(q: seq<Hint>) {
    forall i, j | 0 <= i < j < |q| :: q[i].serial < q[j].serial
  }

  /** Delivered hints, then the batch, then the queue: each in insertion order and before the next. */
  ghost predicate Ordered(s: State) {
    Sorted(s.log + s.batch + s.queue) && forall h | h in s.log + s.batch + s.queue :: h.serial < |s.added|
  }

  lemma SortedSnoc(q: seq<Hint>, h: Hint)
    requires Sorted(q) && forall g | g in q :: g.serial < h.serial
    ensures Sorted(q + [h])
  {
  }

  lemma SortedCut(a: seq<Hint>, b: seq<Hint>, c: seq<Hint>)
    requires Sorted(a + b + c)
    ensures Sorted(a + c)
  {
    var all, cut := a + b + c, a + c;
    forall i, j | 0 <= i < j < |cut| ensures cut[i].serial < cut[j].serial {
      var i' := if i < |a| then i else i + |b|;
      var j' := if j < |a| then j else j + |b|;
      assert all[i'] == cut[i] && all[j'] == cut[j];
    }
  }

  lemma SortedSame(q: seq<Hint>, q': seq<Hint>)
    requires Sorted(q) && |q| == |q'| && forall i | 0 <= i < |q| :: q[i].serial == q'[i].serial
    ensures Sorted(q')
  {
  }

  lemma AddOrdered(s: State, h: Hint)
    requires Ordered(s) && s.cap >= 1 && h.serial == |s.added|
    ensures Ordered(Enqueued(s, h))
  {
    var all := s.log + s.batch + s.queue;
    if |s.queue| >= s.cap {
      var front := s.log + s.batch;
      assert front + [s.queue[0]] + s.queue[1..] == all;
      SortedCut(front, [s.queue[0]], s.queue[1..]);
      assert forall g | g in front + s.queue[1..] :: g in all;
      SortedSnoc(front + s.queue[1..], h);
      assert front + s.queue[1..] + [h] == front + (s.queue[1..] + [h]);
    } else {
      SortedSnoc(all, h);
      assert all + [h] == s.log + s.batch + (s.queue + [h]);
    }
  }

  lemma Rearranged(a: seq<Hint>, b: seq<Hint>, c: seq<Hint>, h: Hint)
    requires b != []
    ensures a + ([h] + b[1..]) + c == (a + b + c)[|a| := h]
    ensures a + [h] + b[1..] + c == (a + b + c)[|a| := h]
  {
  }

  lemma UpdateSame(q: seq<Hint>, k: nat, h: Hint)
    requires Sorted(q) && k < |q| && h.serial == q[k].serial
    ensures Sorted(q[k := h]) && forall g | g in q[k := h] :: g == h || g in q
  {
    SortedSame(q, q[k := h]);
  }

  lemma SendOrdered(s: State, ok: bool)
    requires Ordered(s) && Enabled(s, Send(ok))
    ensures Ordered(Next(s, Send(ok)))
  {
    var h := Outgoing(s.batch[0], s.phase.now);
    var all := s.log + s.batch + s.queue;
    assert all[|s.log|] == s.batch[0];
    Rearranged(s.log, s.batch, s.queue, h);
    UpdateSame(all, |s.log|, h);
    assert s.batch[0] in all;
  }

  lemma StepOrdered(s: State, step: Step)
    requires Ordered(s) && Enabled(s, step) && (s.phase.Idle? ==> s.batch == [])
    ensures Ordered(Next(s, step))
  {
    var all := s.log + s.batch + s.queue;
    match step
    case Add(key, v, at) => AddOrdered(s, NewHint(s, key, v, at));
    case Take(now) => assert s.log + s.queue[..BatchSize(s.queue)] + s.queue[BatchSize(s.queue)..] == all;
    case Discard =>
      assert s.log + s.queue + [] == all;
      SortedCut(s.log, s.queue, []);
      assert s.log + [] + [] == s.log + [];
    case Skip =>
      assert s.log + [s.batch[0]] + (s.batch[1..] + s.queue) == all;
      SortedCut(s.log, [s.batch[0]], s.batch[1..] + s.queue);
      assert s.log + (s.batch[1..] + s.queue) == s.log + s.batch[1..] + s.queue;
      assert forall h | h in s.log + s.batch[1..] + s.queue :: h in all;
    case Send(ok) => SendOrdered(s, ok);
    case PutBack => assert s.log + [] + (s.batch + s.queue) == all;
    case Finish =>
  }

  // ---------- conservation ----------

  function One(b: bool): nat {
    if b then 1 else 0
  }

  /** In how many places the hint with this serial is. */
  function Places(s: State, i: nat): nat {
    One(i in Serials(s.queue)) + One(i in Serials(s.batch)) + One(i in Serials(s.log)) +
    One(i in s.dropped) + One(i in s.expired) + One(i in s.discarded)
  }

  ghost predicate Conserved(s: State) {
    && (forall i | 0 <= i < |s.added| :: Places(s, i) == 1)
    && (forall i: nat | |s.added| <= i :: Places(s, i) == 0)
  }

  lemma SerialsSplit(a: seq<Hint>, b: seq<Hint>)
    ensures Serials(a + b) == Serials(a) + Serials(b)
  {
    forall i | i in Serials(a) + Serials(b) ensures i in Serials(a + b) {
      if i in Serials(a) {
        var h :| h in a && h.serial == i;
        assert h in a + b;
      } else {
        var h :| h in b && h.serial == i;
        assert h in a + b;
      }
    }
  }

  lemma SerialsOne(h: Hint)
    ensures Serials([h]) == {h.serial}
  {
    assert h in [h];
  }

  /** The first of a sorted list is not among the rest. */
  lemma SerialsHead(q: seq<Hint>)
    requires q != []
    ensures Serials(q) == {q[0].serial} + Serials(q[1..])
    ensures Sorted(q) ==> q[0].serial !in Serials(q[1..])
  {
    assert q == [q[0]] + q[1..];
    SerialsSplit([q[0]], q[1..]);
    SerialsOne(q[0]);
  }

  lemma SortedParts(s: State)
    requires Ordered(s)
    ensures Sorted(s.batch) && Sorted(s.queue)
  {
    var all := s.log + s.batch + s.queue;
    assert forall i | 0 <= i < |s.batch| :: s.batch[i] == all[|s.log| + i];
    assert forall i | 0 <= i < |s.queue| :: s.queue[i] == all[|s.log| + |s.batch| + i];
  }

  lemma AddConserved(s: State, h: Hint)
    requires Ordered(s) && Conserved(s) && s.cap >= 1 && h.serial == |s.added|
    ensures Conserved(Enqueued(s, h))
  {
    SortedParts(s);
    SerialsOne(h);
    if |s.queue| >= s.cap {
      SerialsHead(s.queue);
      SerialsSplit(s.queue[1..], [h]);
    } else {
      SerialsSplit(s.queue, [h]);
    }
    var s' := Enqueued(s, h);
    assert Places(s, |s.added|) == 0;
    forall i: nat ensures Places(s', i) == if i == |s.added| then 1 else Places(s, i) {
    }
  }

  lemma SendConserved(s: State, ok: bool)
    requires Ordered(s) && Conserved(s) && Enabled(s, Send(ok))
    ensures Conserved(Next(s, Send(ok)))
  {
    SortedParts(s);
    SerialsHead(s.batch);
    var h := Outgoing(s.batch[0], s.phase.now);
    SerialsOne(h);
    SerialsSplit(s.log, [h]);
    SerialsSplit([h], s.batch[1..]);
    forall i: nat ensures Places(Next(s, Send(ok)), i) == Places(s, i) {
    }
  }

  lemma StepConserved(s: State, step: Step)
    requires Ordered(s) && Conserved(s) && Enabled(s, step) && (s.phase.Idle? ==> s.batch == [])
    ensures Conserved(Next(s, step))
  {
    var s' := Next(s, step);
    SortedParts(s);
    match step
    case Add(key, v, at) => AddConserved(s, NewHint(s, key, v, at));
    case Take(now) =>
      var n := BatchSize(s.queue);
      TakeDisjoint(s.queue, n);
      assert forall i: nat :: Places(s', i) == Places(s, i);
    case Discard =>
      assert forall i: nat :: Places(s', i) == Places(s, i);
    case Skip =>
      SerialsHead(s.batch);
      assert forall i: nat :: Places(s', i) == Places(s, i);
    case Send(ok) => SendConserved(s, ok);
    case PutBack =>
      SerialsSplit(s.batch, s.queue);
      assert forall i: nat :: Places(s', i) == Places(s, i);
    case Finish => assert forall i: nat :: Places(s', i) == Places(s, i);
  }

  lemma TakeDisjoint(q: seq<Hint>, n: nat)
    requires Sorted(q) && n <= |q|
    ensures Serials(q[..n]) !! Serials(q[n..]) && Serials(q[..n]) + Serials(q[n..]) == Serials(q)
  {
    assert q[..n] + q[n..] == q;
    SerialsSplit(q[..n], q[n..]);
  }

  // ---------- size and contents ----------

  /** Out with the replayer, a batch leaves at most a cap's worth behind. */
  ghost predicate Bounded(s: State) {
    && s.cap >= 1 && |s.batch| <= BATCH
    && (s.phase.Idle? ==> s.batch == [] && |s.queue| <= s.cap + BATCH)
    && (!s.phase.Idle? ==> |s.queue| <= s.cap)
  }

  /** Only the remaining time to live of a hint may differ from when it was added. */
  predicate Same(h: Hint, original: Hint) {
    h.value.(ttl := None) == original.value.(ttl := None) && h.key == original.key &&
    h.deadline == original.deadline && (h.deadline.None? ==> h == original)
  }

  ghost predicate Intact(s: State) {
    forall h | h in s.log + s.batch + s.queue :: h.serial < |s.added| && Same(h, s.added[h.serial])
  }

  lemma StepIntact(s: State, step: Step)
    requires Intact(s) && Enabled(s, step)
    ensures Intact(Next(s, step))
  {
    var s' := Next(s, step);
    forall h | h in s'.log + s'.batch + s'.queue ensures h.serial < |s'.added| && Same(h, s'.added[h.serial]) {
      if h !in s.log + s.batch + s.queue {
        assert step.Add? || (step.Send? && h == Outgoing(s.batch[0], s.phase.now));
        if step.Send? {
          assert s.batch[0] in s.log + s.batch + s.queue;
        }
      }
    }
  }

  ghost predicate Inv(s: State) {
    Ordered(s) && Conserved(s) && Bounded(s) && Intact(s)
  }

  lemma {:induction false} RunInv(trace: seq<State>, n: nat)
    requires IsRun(trace) && n < |trace|
    ensures Inv(trace[n])
  {
    if n > 0 {
      RunInv(trace, n - 1);
      assert Follows(trace, n - 1);
      var step :| Enabled(trace[n - 1], step) && trace[n] == Next(trace[n - 1], step);
      StepInv(trace[n - 1], step);
    }
  }

  /**
    Over every interleaving of adds with one replayer: each hint ever added is in exactly one place,
    pending hints are in insertion order, and the queue holds at most the cap plus one batch.
   */
  lemma HintsAreConserved(trace: seq<State>, n: nat, i: nat)
    requires IsRun(trace) && n < |trace| && i < |trace[n].added|
    ensures Places(trace[n], i) == 1
    ensures Sorted(trace[n].queue) && |trace[n].queue| <= trace[n].cap + BATCH
  {
    RunInv(trace, n);
    SortedParts(trace[n]);
  }

  /** What is delivered is what was added, in insertion order, and before anything still pending. */
  lemma DeliveredInOrder(trace: seq<State>, n: nat)
    requires IsRun(trace) && n < |trace|
    ensures Sorted(trace[n].log)
    ensures forall g, h | g in trace[n].log && h in trace[n].batch + trace[n].queue :: g.serial < h.serial
    ensures forall h | h in trace[n].log :: h.serial < |trace[n].added| && Same(h, trace[n].added[h.serial])
  {
    RunInv(trace, n);
    var s := trace[n];
    var all := s.log + s.batch + s.queue;
    assert forall i | 0 <= i < |s.log| :: s.log[i] == all[i];
    forall g, h | g in s.log && h in s.batch + s.queue ensures g.serial < h.serial {
      var i :| 0 <= i < |s.log| && s.log[i] == g;
      var j :| 0 <= j < |s.batch + s.queue| && (s.batch + s.queue)[j] == h;
      assert all[i] == g && all[|s.log| + j] == h;
    }
    assert forall h | h in s.log :: h in all;
  }

  // ---------- when the cap is exceeded ----------

  /** Only a put-back takes a queue over its cap, and does exactly when the two do not fit together. */
  lemma OverCapExactly(s: State, step: Step)
    requires Enabled(s, step) && |s.queue| <= s.cap
    ensures |Next(s, step).queue| > s.cap <==> step.PutBack? && |s.batch| + |s.queue| > s.cap
  {
  }

  /** What of a batch is put back: everything from the first hint that is not late and is refused. */
  function Unsent(batch: seq<Hint>, now: int, accepts: nat -> bool): seq<Hint> {
    if batch == [] then []
    else if IsLate(batch[0], now) || accepts(batch[0].serial) then Unsent(batch[1..], now, accepts)
    else batch
  }

  /** A replay during which nothing is added. */
  lemma {:induction false} QuietReplayOverCap(s: State, accepts: nat -> bool)
    requires s.phase.Sending? && |s.queue| <= s.cap
    ensures |Drained(s, accepts).queue| == |Unsent(s.batch, s.phase.now, accepts)| + |s.queue|
    ensures |Drained(s, accepts).queue| > s.cap <==> |Unsent(s.batch, s.phase.now, accepts)| + |s.queue| > s.cap
    decreases |s.batch|
  {
    if s.batch != [] {
      if IsLate(s.batch[0], s.phase.now) {
        QuietReplayOverCap(Next(s, Skip), accepts);
      } else if accepts(s.batch[0].serial) {
        QuietReplayOverCap(Next(s, Send(true)), accepts);
      }
    }
  }

  /** The size of a queue after `adds` more hints: full at the cap, and no smaller than it was. */
  function Filled(size: nat, cap: nat, adds: nat): nat {
    if size + adds <= cap then size + adds else if size <= cap then cap else size
  }

  /** The last hints of `all`, oldest first; a refused one has its remaining time to live. */
  ghost predicate IsRest(rest: seq<Hint>, all: seq<Hint>) {
    && |rest| <= |all|
    && forall i | 0 <= i < |rest| ::
         rest[i].serial == all[|all| - |rest| + i].serial && Same(rest[i], all[|all| - |rest| + i])
  }

  /** Between the start of a replay and `s`: the batch shrank from the front, the queue took what was added. */
  ghost predicate Amid(start: State, s: State) {
    && s.cap == start.cap && |start.added| <= |s.added| && IsRest(s.batch, start.batch)
    && |s.queue| == Filled(|start.queue|, s.cap, |s.added| - |start.added|)
  }

  lemma AmidStep(start: State, s: State, step: Step)
    requires Amid(start, s) && !s.phase.Idle? && Enabled(s, step)
    ensures var s' := Next(s, step);
      if s'.phase.Idle? then |s'.queue| == |s.batch| + |s.queue| && s'.added == s.added else Amid(start, s')
  {
  }

  /** From a taken batch to the end of the replay, with adds wherever they come. */
  ghost predicate IsReplay(trace: seq<State>) {
    && |trace| >= 2 && trace[0].phase.Sending? && trace[|trace| - 1].phase.Idle?
    && (forall i | 0 <= i < |trace| - 1 :: Follows(trace, i))
    && forall i | 0 <= i < |trace| - 1 :: !trace[i].phase.Idle?
  }

  lemma {:induction false} ReplayAmid(trace: seq<State>, n: nat)
    requires IsReplay(trace) && n < |trace| - 1
    ensures Amid(trace[0], trace[n])
  {
    if n > 0 {
      ReplayAmid(trace, n - 1);
      assert Follows(trace, n - 1);
      var step :| Enabled(trace[n - 1], step) && trace[n] == Next(trace[n - 1], step);
      AmidStep(trace[0], trace[n - 1], step);
    }
  }

  /**
    For a whole replay with adds between its sends: what is put back are the last hints of the batch,
    and the queue ends over its cap if and only if there are any and they, the hints queued at the
    start and the ones added meanwhile do not fit together.
   */
  lemma ReplayOverCapExactly(trace: seq<State>) returns (unsent: seq<Hint>)
    requires IsReplay(trace) && |trace[0].queue| <= trace[0].cap
    ensures var first, last := trace[0], trace[|trace| - 1];
      var adds := |last.added| - |first.added|;
      && adds >= 0 && last.cap == first.cap && IsRest(unsent, first.batch)
      && |last.queue| == |unsent| + Filled(|first.queue|, first.cap, adds)
      && (|last.queue| > last.cap <==> unsent != [] && |unsent| + |first.queue| + adds > first.cap)
  {
    var n := |trace| - 2;
    ReplayAmid(trace, n);
    assert Follows(trace, n);
    var step :| Enabled(trace[n], step) && trace[n + 1] == Next(trace[n], step);
    AmidStep(trace[0], trace[n], step);
    unsent := trace[n].batch;
  }

  ghost predicate Reach(s: State) {
    exists trace :: IsRun(trace) && trace[|trace| - 1] == s
  }

  lemma Extend(s: State, step: Step)
    requires Reach(s) && Enabled(s, step)
    ensures Reach(Next(s, step))
  {
    var trace :| IsRun(trace) && trace[|trace| - 1] == s;
    var longer := trace + [Next(s, step)];
    forall i | 0 <= i < |longer| - 1 ensures Follows(longer, i) {
      if i < |trace| - 1 {
        assert Follows(trace, i);
      }
    }
    assert IsRun(longer);
  }

  predicate NeverLate(q: seq<Hint>) {
    forall i | 0 <= i < |q| :: q[i].deadline.None?
  }

  /** Adding until the queue is at its cap, while the replayer holds its batch. */
  lemma {:induction false} FillQueue(s: State) returns (s': State)
    requires Reach(s) && s.cap >= 1 && |s.queue| <= s.cap && NeverLate(s.queue)
    ensures Reach(s') && |s'.queue| == s.cap == s'.cap && NeverLate(s'.queue)
    ensures s'.batch == s.batch && s'.phase == s.phase
    decreases s.cap - |s.queue|
  {
    if |s.queue| == s.cap {
      s' := s;
    } else {
      var step := Add("", VersionedValue("", 0, false, None), 0);
      Extend(s, step);
      s' := FillQueue(Next(s, step));
    }
  }

  /** One failing replay during which the queue fills up again. */
  lemma FailedReplay(s: State) returns (s': State)
    requires Reach(s) && s.cap >= 1 && s.phase.Idle? && s.queue != []
    requires |s.queue| <= s.cap + BATCH && NeverLate(s.queue)
    ensures Reach(s') && s'.phase.Idle? && s'.cap == s.cap && NeverLate(s'.queue)
    ensures |s'.queue| == BatchSize(s.queue) + s.cap
  {
    Extend(s, Take(0));
    var s1 := Next(s, Take(0));
    var s2 := FillQueue(s1);
    assert !IsLate(s2.batch[0], 0);
    Extend(s2, Send(false));
    var s3 := Next(s2, Send(false));
    Extend(s3, PutBack);
    s' := Next(s3, PutBack);
  }

  lemma {:induction false} GrowToBatch(s: State) returns (s': State)
    requires Reach(s) && s.cap >= 1 && s.phase.Idle? && s.queue != []
    requires |s.queue| <= s.cap + BATCH && NeverLate(s.queue)
    ensures Reach(s') && s'.phase.Idle? && s'.cap == s.cap && NeverLate(s'.queue)
    ensures BATCH <= |s'.queue| <= s.cap + BATCH
    decreases BATCH - |s.queue|
  {
    if |s.queue| >= BATCH {
      s' := s;
    } else {
      var s1 := FailedReplay(s);
      s' := GrowToBatch(s1);
    }
  }

  /** The bound is reached: for every cap some run leaves exactly the cap plus one batch in the queue. */
  lemma CapPlusBatchReached(cap: nat) returns (trace: seq<State>)
    requires cap >= 1
    ensures IsRun(trace) && trace[|trace| - 1].cap == cap && |trace[|trace| - 1].queue| == cap + BATCH
  {
    var s0 := State(cap, [], Idle, [], [], [], {}, {}, {});
    assert IsRun([s0]);
    assert Reach(s0);
    var s1 := FillQueue(s0);
    var s2 := GrowToBatch(s1);
    var s3 := FailedReplay(s2);
    trace :| IsRun(trace) && trace[|trace| - 1] == s3;
  }

  // ---------- as the source keeps it ----------

  /** One replay pass over a batch, given which sends the peer accepts. */
  function Drained(s: State, accepts: nat -> bool): State
    requires s.phase.Sending?
    decreases |s.batch|
  {
    if s.batch == [] then Next(s, Finish)
    else if IsLate(s.batch[0], s.phase.now) then Drained(Next(s, Skip), accepts)
    else if accepts(s.batch[0].serial) then Drained(Next(s, Send(true)), accepts)
    else Next(Next(s, Send(false)), PutBack)
  }

  lemma {:induction false} DrainedInv(s: State, accepts: nat -> bool)
    requires Inv(s) && s.phase.Sending?
    ensures Inv(Drained(s, accepts)) && Drained(s, accepts).phase.Idle?
    ensures Drained(s, accepts).added == s.added
    decreases |s.batch|
  {
    if s.batch == [] {
      StepInv(s, Finish);
    } else if IsLate(s.batch[0], s.phase.now) {
      StepInv(s, Skip);
      DrainedInv(Next(s, Skip), accepts);
    } else {
      var ok := accepts(s.batch[0].serial);
      StepInv(s, Send(ok));
      if ok {
        DrainedInv(Next(s, Send(true)), accepts);
      } else {
        StepInv(Next(s, Send(false)), PutBack);
      }
    }
  }

  class HintQueue {
    const cap: nat
    var queue: seq<Hint>
    var batch: seq<Hint>
    ghost var phase: Phase
    ghost var added: seq<Hint>
    ghost var log: seq<Hint>
    ghost var dropped: set<nat>
    ghost var expired: set<nat>
    ghost var discarded: set<nat>
    var serial: nat

    ghost function Value(): State
      reads this
    {
      State(cap, queue, phase, batch, added, log, dropped, expired, discarded)
    }

    ghost predicate Valid()
      reads this
    {
      Inv(Value()) && serial == |added|
    }

    constructor (limit: nat)
      requires limit >= 1
      ensures Valid() && IsEmpty(Value()) && cap == limit
    {
      cap, queue, batch, serial := limit, [], [], 0;
      phase, added, log, dropped, expired, discarded := Idle, [], [], {}, {}, {};
    }

    /** add_hint */
    method AddHint(key: string, v: VersionedValue, now: int)
      requires Valid()
      modifies this
      ensures Valid() && Value() == Next(old(Value()), Add(key, v, now))
    {
      StepInv(Value(), Add(key, v, now));
      var h := Hint(serial, key, v, if v.ttl.Some? then Some(now + v.ttl.value * LruLists.TICKS_PER_MS) else None);
      if |queue| >= cap {
        dropped := dropped + {queue[0].serial};
        queue := queue[1..];
      }
      queue := queue + [h];
      added := added + [h];
      serial := serial + 1;
    }

    /** The node is no longer a member: its queue is cleared. */
    method DiscardAll()
      requires Valid() && phase.Idle?
      modifies this
      ensures Valid() && Value() == Next(old(Value()), Discard)
    {
      StepInv(Value(), Discard);
      discarded := discarded + Serials(queue);
      queue := [];
    }

    method TakeBatch(now: int)
      requires Valid() && phase.Idle?
      modifies this
      ensures Valid() && Value() == Next(old(Value()), Take(now))
    {
      StepInv(Value(), Take(now));
      ghost var all := queue;
      while queue != [] && |batch| < BATCH
        invariant |batch| <= BATCH && |batch| <= |all|
        invariant batch == all[..|batch|] && queue == all[|batch|..]
        invariant Value() == old(Value()).(queue := queue, batch := batch) && serial == old(serial)
        decreases |queue|
      {
        batch := batch + [queue[0]];
        queue := queue[1..];
      }
      phase := Sending(now);
    }

    /** The loop body: an expired hint is skipped, another is sent with its remaining time to live. */
    method Attempt(now: int, accepts: nat -> bool) returns (failed: bool, sent: bool)
      requires phase == Sending(now) && batch != []
      modifies this
      ensures serial == old(serial) && failed == (!IsLate(old(batch)[0], now) && !accepts(old(batch)[0].serial))
      ensures Value() == Next(old(Value()), if IsLate(old(batch)[0], now) then Skip else Send(!failed))
      ensures sent <==> |log| == |old(log)| + 1
      ensures !sent ==> log == old(log)
    {
      var h := batch[0];
      failed, sent := false, false;
      if h.deadline.Some? {
        if h.deadline.value <= now {
          batch, expired := batch[1..], expired + {h.serial};
          return;
        }
        h := h.(value := h.value.(ttl := Some((h.deadline.value - now) / LruLists.TICKS_PER_MS)));
      }
      if accepts(h.serial) {
        batch, log := batch[1..], log + [h];
        sent := true;
      } else {
        batch, phase := [h] + batch[1..], Failed;
        failed := true;
      }
    }

    /** Sends the batch oldest first, stopping at the first failure; the rest goes back. */
    method SendBatch(now: int, accepts: nat -> bool) returns (delivered: nat)
      requires phase == Sending(now)
      modifies this
      ensures Value() == Drained(old(Value()), accepts) && serial == old(serial)
      ensures delivered == |log| - |old(log)|
    {
      delivered := 0;
      while batch != []
        invariant phase == Sending(now) && delivered == |log| - |old(log)| && serial == old(serial)
        invariant Drained(Value(), accepts) == Drained(old(Value()), accepts)
        decreases |batch|
      {
        var failed, sent := Attempt(now, accepts);
        if failed {
          break;
        }
        delivered := delivered + if sent then 1 else 0;
      }
      PutBackRest();
    }

    method Replay(now: int, accepts: nat -> bool) returns (delivered: nat)
      requires Valid() && phase == Sending(now)
      modifies this
      ensures Valid() && Value() == Drained(old(Value()), accepts)
      ensures delivered == |log| - |old(log)|
    {
      DrainedInv(Value(), accepts);
      delivered := SendBatch(now, accepts);
    }

    /** push_front from the back of the batch. */
    method ReturnBatch()
      modifies `queue, `batch
      ensures queue == old(batch) + old(queue) && batch == []
    {
      ghost var all := batch + queue;
      while batch != []
        invariant batch + queue == all
        decreases |batch|
      {
        Rotated(batch, queue);
        queue := [batch[|batch| - 1]] + queue;
        batch := batch[..|batch| - 1];
      }
    }

    method PutBackRest()
      requires phase.Failed? || (phase.Sending? && batch == [])
      modifies this
      ensures Value() == Next(old(Value()), if old(phase).Failed? then PutBack else Finish)
      ensures log == old(log) && serial == old(serial)
    {
      ReturnBatch();
      phase := Idle;
    }
  }

  lemma Rotated<T>(a: seq<T>, b: seq<T>)
    requires a != []
    ensures a[..|a| - 1] + ([a[|a| - 1]] + b) == a + b
  {
  }

  lemma StepInv(s: State, step: Step)
    requires Inv(s) && Enabled(s, step)
    ensures Inv(Next(s, step))
  {
    StepOrdered(s, step);
    StepConserved(s, step);
    StepIntact(s, step);
  }
}
