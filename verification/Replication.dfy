/**
  The replication protocol for one key as a step machine (src/cluster.cpp: read, put, del,
  collect, next_version, replicate, apply_replica_write, replica_read).

  Coordinators run on any node.  Requests are never lost by the model: a replica may handle any
  read request or any write request ever sent, at any time and any number of times, which covers
  slow RPCs, duplicated deliveries, read repair and hint replay.  A request that is never handled
  is a lost one.  An operation may give up at any time; what it already sent stays in flight.

  Hypotheses carried by the model: one fixed owner set, no memory loss, no eviction or expiry.
 */
module Replication {
  import opened Options
  import opened Versions
  import opened Quorums
  import opened Histories

  /** The nodes, any of which coordinates, and those that own the key. */
  datatype System = System(config: Config, nodes: set<NodeId>, owners: set<NodeId>)

  function R(sys: System): nat {
    EffectiveQuorum(sys.config, sys.config.readQuorum, |sys.owners|)
  }

  function W(sys: System): nat {
    EffectiveQuorum(sys.config, sys.config.writeQuorum, |sys.owners|)
  }

  predicate Intersecting(sys: System) {
    R(sys) + W(sys) > |sys.owners|
  }

  predicate Abd(sys: System) {
    sys.config.consistency.LinearizableMode?
  }

  /** The only node owns the key and coordinates every operation on it. */
  predicate Alone(sys: System) {
    sys.owners == sys.nodes && |sys.nodes| == 1
  }

  /** Every operation builds on what earlier ones settled. */
  predicate Strong(sys: System) {
    Abd(sys) || Alone(sys)
  }

  type Entries = map<NodeId, Option<Tag>>

  datatype Phase = Query | Store | Done | Failed

  /**
    A client operation and its coordinator's state.  `tag` is the tag a write was stamped with,
    or the winner of a read.  `floor` is a history variable: the replicas at invocation.
   */
  datatype Op = Op(
    node: NodeId, action: Action, start: nat, floor: Entries,
    phase: Phase, replies: Entries, tag: Option<Tag>, acks: set<NodeId>, end: nat)

  datatype State = State(
    time: nat,
    ops: seq<Op>,
    entries: Entries,                            // what each owner stores
    clocks: map<NodeId, nat>,                    // hybrid clocks; absent means 0
    writes: set<Tag>,                            // write requests ever sent
    answers: set<(nat, NodeId, Option<Tag>)>,    // replies to read requests
    acked: set<(nat, NodeId)>)                   // replies to write requests

  datatype Step =
    | Invoke(node: NodeId, action: Action)
    | Answer(id: nat, r: NodeId)
    | TakeAnswer(id: nat, r: NodeId, e: Option<Tag>)
    | Stamp(id: nat, version: nat)
    | Deliver(r: NodeId, t: Tag)
    | DeliverRpc(id: nat, r: NodeId)
    | TakeAck(id: nat, r: NodeId)
    | Resolve(id: nat, winner: Option<Tag>)
    | LocalRead(id: nat)
    | Complete(id: nat)
    | Fail(id: nat)

  function Clock(s: State, n: NodeId): nat {
    if n in s.clocks then s.clocks[n] else 0
  }

  function Observe(s: State, n: NodeId, version: nat): map<NodeId, nat> {
    s.clocks[n := if version > Clock(s, n) then version else Clock(s, n)]
  }

  /** Whether the operation asks the replicas first: collect, for a read or for next_version. */
  predicate Queries(sys: System, op: Op) {
    if op.action.Get? then !CanServeLocally(sys.config, sys.owners, op.node, false)
    else Abd(sys) && !CanServeLocally(sys.config, sys.owners, op.node, true)
  }

  /** A coordinator that owns the key reads and writes its own copy before it decides. */
  predicate AskedItself(sys: System, node: NodeId, asked: set<NodeId>) {
    node in sys.owners ==> node in asked
  }

  function NewTag(action: Action, version: nat): Tag
    requires !action.Get?
  {
    if action.Put? then Tag(version, false, action.value) else Tag(version, true, "")
  }

  function Init(sys: System): State {
    State(0, [], map r | r in sys.owners :: None, map[], {}, {}, {})
  }

  predicate VersionBelow(e: Option<Tag>, v: nat) {
    e.None? || e.value.version < v
  }

  predicate Pending(s: State, id: nat, phase: Phase) {
    id < |s.ops| && s.ops[id].phase == phase
  }

  ghost predicate Enabled(sys: System, s: State, step: Step)
    requires s.entries.Keys == sys.owners
  {
    match step
    case Invoke(node, _) => node in sys.nodes
    case Answer(id, r) => id < |s.ops| && r in sys.owners && Queries(sys, s.ops[id])
    case TakeAnswer(id, r, e) => Pending(s, id, Query) && (id, r, e) in s.answers && r !in s.ops[id].replies
    case Stamp(id, version) =>
      // HybridClock: now() exceeds everything the clock returned or observed before
      && Pending(s, id, Query) && !s.ops[id].action.Get?
      && (Queries(sys, s.ops[id]) ==>
            |s.ops[id].replies| >= R(sys) && AskedItself(sys, s.ops[id].node, s.ops[id].replies.Keys))
      && version > Clock(s, s.ops[id].node)
      && (forall r | r in s.ops[id].replies :: VersionBelow(s.ops[id].replies[r], version))
    case Deliver(r, t) => r in sys.owners && t in s.writes
    case DeliverRpc(id, r) => id < |s.ops| && r in sys.owners && s.ops[id].tag.Some?
    case TakeAck(id, r) => Pending(s, id, Store) && (id, r) in s.acked
    case Resolve(id, winner) =>
      && Pending(s, id, Query) && s.ops[id].action.Get?
      && |s.ops[id].replies| >= R(sys) && IsWinner(s.ops[id].replies, winner)
      && AskedItself(sys, s.ops[id].node, s.ops[id].replies.Keys)
    case LocalRead(id) =>
      && Pending(s, id, Query) && s.ops[id].action.Get?
      && CanServeLocally(sys.config, sys.owners, s.ops[id].node, false)
    case Complete(id) =>
      Pending(s, id, Store) && |s.ops[id].acks| >= W(sys) && AskedItself(sys, s.ops[id].node, s.ops[id].acks)
    case Fail(id) => Pending(s, id, Query) || Pending(s, id, Store)
  }

  function WriteBack(sys: System, op: Op, winner: Option<Tag>): bool {
    winner.Some? && Abd(sys) && |Holding(op.replies, winner)| < W(sys)
  }

  ghost function Next(sys: System, s: State, step: Step): State
    requires s.entries.Keys == sys.owners && Enabled(sys, s, step)
  {
    var t := s.(time := s.time + 1);
    match step
    case Invoke(node, action) =>
      t.(ops := s.ops + [Op(node, action, s.time, s.entries, Query, map[], None, {}, 0)])
    case Answer(id, r) =>
      t.(answers := s.answers + {(id, r, s.entries[r])})
    case TakeAnswer(id, r, e) =>
      t.(ops := s.ops[id := s.ops[id].(replies := s.ops[id].replies[r := e])])
    case Stamp(id, version) =>
      var tag := NewTag(s.ops[id].action, version);
      t.(ops := s.ops[id := s.ops[id].(phase := Store, tag := Some(tag))],
         clocks := s.clocks[s.ops[id].node := version],
         writes := s.writes + {tag})
    case Deliver(r, tag) =>
      t.(entries := s.entries[r := Merge(s.entries[r], tag)],
         clocks := Observe(s, r, tag.version))
    case DeliverRpc(id, r) =>
      var tag := s.ops[id].tag.value;
      t.(entries := s.entries[r := Merge(s.entries[r], tag)],
         clocks := Observe(s, r, tag.version),
         acked := s.acked + {(id, r)})
    case TakeAck(id, r) =>
      t.(ops := s.ops[id := s.ops[id].(acks := s.ops[id].acks + {r})])
    case Resolve(id, winner) =>
      var op := s.ops[id].(tag := winner);
      t.(ops := s.ops[id := if WriteBack(sys, op, winner) then op.(phase := Store)
                            else op.(phase := Done, end := s.time)],
         clocks := if winner.Some? then Observe(s, op.node, winner.value.version) else s.clocks)
    case LocalRead(id) =>
      var op := s.ops[id];
      t.(ops := s.ops[id := op.(replies := map[op.node := s.entries[op.node]],
                                tag := s.entries[op.node], phase := Done, end := s.time)])
    case Complete(id) =>
      t.(ops := s.ops[id := s.ops[id].(phase := Done, end := s.time)])
    case Fail(id) =>
      t.(ops := s.ops[id := s.ops[id].(phase := Failed)])
  }

  ghost predicate Transition(sys: System, s: State, s': State, step: Step) {
    s.entries.Keys == sys.owners && Enabled(sys, s, step) && s' == Next(sys, s, step)
  }

  ghost predicate CanStep(sys: System, s: State, s': State) {
    exists step :: Transition(sys, s, s', step)
  }

  /** The i-th state is followed by one that it can step to. */
  ghost predicate Follows(sys: System, trace: seq<State>, i: nat)
    requires i < |trace| - 1
  {
    CanStep(sys, trace[i], trace[i + 1])
  }

  ghost predicate IsRun(sys: System, trace: seq<State>) {
    && |trace| > 0 && trace[0] == Init(sys)
    && forall i | 0 <= i < |trace| - 1 :: Follows(sys, trace, i)
  }

  // ---------- the invariant ----------

  /** Owners whose entry at invocation has a version below `v`. */
  function Outdated(m: Entries, v: nat): set<NodeId> {
    set r | r in m && VersionBelow(m[r], v)
  }

  /** A write quorum stores at least `t`. */
  predicate Held(sys: System, m: Entries, t: Option<Tag>) {
    t.None? || |Holders(m, t)| >= W(sys)
  }

  /** Finished operations whose tag later operations must respect. */
  predicate Binding(sys: System, op: Op) {
    op.phase.Done? && (Strong(sys) || !op.action.Get?)
  }

  ghost predicate Grown(a: Entries, b: Entries) {
    a.Keys == b.Keys && forall r | r in a :: Le(a[r], b[r])
  }

  ghost predicate Sent(s: State, e: Option<Tag>) {
    e.Some? ==> e.value in s.writes
  }

  ghost predicate OpInv(sys: System, s: State, op: Op) {
    && op.start < s.time && op.node in sys.nodes
    && Grown(op.floor, s.entries)
    && op.replies.Keys <= sys.owners <= op.floor.Keys
    && (forall r | r in op.replies ::
          Le(op.floor[r], op.replies[r]) && Le(op.replies[r], s.entries[r]) && Sent(s, op.replies[r]))
    && op.acks <= sys.owners
    && (forall r | r in op.acks :: Le(op.tag, s.entries[r]))
    && Sent(s, op.tag)
    && (op.phase.Store? ==> op.tag.Some?)
    && (op.phase.Query? ==> op.tag.None? && op.acks == {})
    && (op.phase.Store? && op.action.Get? ==> |op.replies| >= R(sys) && IsWinner(op.replies, op.tag))
    && (op.phase.Done? ==> op.start <= op.end < s.time)
    && (op.phase.Done? && op.action.Get? ==> |op.replies| >= R(sys) && IsWinner(op.replies, op.tag))
    && (!op.action.Get? && op.phase.Done? ==> op.tag.Some?)
    && (!op.action.Get? && op.tag.Some? ==>
          && op.tag.value == NewTag(op.action, op.tag.value.version)
          && (Strong(sys) ==> |Outdated(op.floor, op.tag.value.version)| >= R(sys)))
    && (Binding(sys, op) ==> Held(sys, s.entries, op.tag))
  }

  ghost predicate AnswersInv(sys: System, s: State)
    requires s.entries.Keys == sys.owners
  {
    forall m | m in s.answers ::
      && m.0 < |s.ops| && m.1 in sys.owners && m.1 in s.ops[m.0].floor && Sent(s, m.2)
      && Le(s.ops[m.0].floor[m.1], m.2) && Le(m.2, s.entries[m.1])
  }

  ghost predicate AcksInv(sys: System, s: State)
    requires s.entries.Keys == sys.owners
  {
    forall m | m in s.acked ::
      m.0 < |s.ops| && m.1 in sys.owners && s.ops[m.0].tag.Some? && Le(s.ops[m.0].tag, s.entries[m.1])
  }

  ghost predicate Stamped(s: State, id: nat, t: Tag) {
    id < |s.ops| && !s.ops[id].action.Get? && s.ops[id].tag == Some(t)
  }

  ghost predicate StoreInv(sys: System, s: State) {
    && s.entries.Keys == sys.owners
    && (forall r | r in sys.owners ::
          Sent(s, s.entries[r]) && (s.entries[r].Some? ==> s.entries[r].value.version <= Clock(s, r)))
    && (forall t | t in s.writes :: exists id: nat :: Stamped(s, id, t))
  }

  /** When `b` was invoked, a write quorum already stored what the finished `a` settled. */
  ghost predicate OrderInv(sys: System, s: State) {
    forall i, j | 0 <= i < |s.ops| && 0 <= j < |s.ops| ::
      Binding(sys, s.ops[i]) && s.ops[i].end < s.ops[j].start ==> Held(sys, s.ops[j].floor, s.ops[i].tag)
  }

  ghost predicate Inv(sys: System, s: State) {
    && StoreInv(sys, s) && AnswersInv(sys, s) && AcksInv(sys, s) && OrderInv(sys, s)
    && forall i | 0 <= i < |s.ops| :: OpInv(sys, s, s.ops[i])
  }

  // ---------- monotonicity ----------

  lemma HoldersGrow(a: Entries, b: Entries, t: Option<Tag>)
    requires Grown(a, b)
    ensures |Holders(a, t)| <= |Holders(b, t)|
  {
    forall r | r in Holders(a, t) ensures r in Holders(b, t) {
      LeTransitive(t, a[r], b[r]);
    }
    SubsetSize(Holders(a, t), Holders(b, t));
  }

  lemma EntriesGrow(sys: System, s: State, step: Step)
    requires s.entries.Keys == sys.owners && Enabled(sys, s, step)
    ensures Grown(s.entries, Next(sys, s, step).entries)
  {
  }

  /** What no step ever takes back. */
  ghost predicate Extends(s: State, s': State) {
    && s.time < s'.time && s.writes <= s'.writes && |s.ops| <= |s'.ops|
    && Grown(s.entries, s'.entries)
    && (forall i | 0 <= i < |s.ops| :: OpExtends(s.ops[i], s'.ops[i]))
    && (forall i | 0 <= i < |s.ops| :: s'.ops[i].phase.Done? && !s.ops[i].phase.Done? ==> s'.ops[i].end == s.time)
    && (forall i | |s.ops| <= i < |s'.ops| :: s'.ops[i].phase.Query? && s'.ops[i].floor == s.entries)
  }

  ghost predicate OpExtends(op: Op, op': Op) {
    && op'.node == op.node && op'.action == op.action && op'.start == op.start && op'.floor == op.floor
    && (op.tag.Some? ==> op'.tag == op.tag)
    && (op.phase.Done? ==> op' == op)
  }

  /** Nothing is decided while an operation still queries. */
  predicate Undecided(s: State) {
    forall i | 0 <= i < |s.ops| :: s.ops[i].phase.Query? ==> s.ops[i].tag.None?
  }

  /** Whether a step changes operation i. */
  predicate Touches(step: Step, i: nat) {
    match step
    case Invoke(_, _) => false
    case Answer(_, _) => false
    case Deliver(_, _) => false
    case DeliverRpc(_, _) => false
    case TakeAnswer(id, _, _) => id == i
    case Stamp(id, _) => id == i
    case TakeAck(id, _) => id == i
    case Resolve(id, _) => id == i
    case LocalRead(id) => id == i
    case Complete(id) => id == i
    case Fail(id) => id == i
  }

  lemma Untouched(sys: System, s: State, step: Step, i: nat)
    requires s.entries.Keys == sys.owners && Enabled(sys, s, step) && i < |s.ops| && !Touches(step, i)
    ensures i < |Next(sys, s, step).ops| && Next(sys, s, step).ops[i] == s.ops[i]
  {
  }

  lemma OpStepExtends(sys: System, s: State, step: Step, i: nat)
    requires s.entries.Keys == sys.owners && Enabled(sys, s, step)
    requires i < |s.ops| && (s.ops[i].phase.Query? ==> s.ops[i].tag.None?)
    ensures var ops := Next(sys, s, step).ops;
      && i < |ops| && OpExtends(s.ops[i], ops[i])
      && (ops[i].phase.Done? && !s.ops[i].phase.Done? ==> ops[i].end == s.time)
  {
    if !Touches(step, i) {
      Untouched(sys, s, step, i);
    }
  }

  lemma StepExtends(sys: System, s: State, step: Step)
    requires s.entries.Keys == sys.owners && Undecided(s) && Enabled(sys, s, step)
    ensures Extends(s, Next(sys, s, step))
  {
    EntriesGrow(sys, s, step);
    var ops := Next(sys, s, step).ops;
    forall i | 0 <= i < |s.ops|
      ensures i < |ops| && OpExtends(s.ops[i], ops[i])
      ensures ops[i].phase.Done? && !s.ops[i].phase.Done? ==> ops[i].end == s.time
    {
      OpStepExtends(sys, s, step, i);
    }
  }

  lemma InvExtends(sys: System, s: State, step: Step)
    requires Inv(sys, s) && Enabled(sys, s, step)
    ensures Extends(s, Next(sys, s, step))
  {
    assert Undecided(s) by {
      forall i | 0 <= i < |s.ops| ensures s.ops[i].phase.Query? ==> s.ops[i].tag.None? {
        assert OpInv(sys, s, s.ops[i]);
      }
    }
    StepExtends(sys, s, step);
  }

  lemma OpInvGrows(sys: System, s: State, s': State, op: Op)
    requires OpInv(sys, s, op) && s.entries.Keys == sys.owners
    requires s.time < s'.time && s.writes <= s'.writes && Grown(s.entries, s'.entries)
    ensures OpInv(sys, s', op)
  {
    forall r | r in op.floor ensures Le(op.floor[r], s'.entries[r]) {
      LeTransitive(op.floor[r], s.entries[r], s'.entries[r]);
    }
    forall r | r in op.replies ensures Le(op.replies[r], s'.entries[r]) {
      LeTransitive(op.replies[r], s.entries[r], s'.entries[r]);
    }
    forall r | r in op.acks ensures Le(op.tag, s'.entries[r]) {
      LeTransitive(op.tag, s.entries[r], s'.entries[r]);
    }
    HoldersGrow(s.entries, s'.entries, op.tag);
  }

  // ---------- each step keeps the operation it touches in order ----------

  /** Between `s` and `s'` time passed and write requests may have been sent; the replicas are the same. */
  ghost predicate Later(sys: System, s: State, s': State) {
    && s.time < s'.time && s.writes <= s'.writes
    && s'.entries == s.entries && s.entries.Keys == sys.owners
  }

  lemma TakeAnswerOk(sys: System, s: State, s': State, op: Op, r: NodeId, e: Option<Tag>)
    requires OpInv(sys, s, op) && Later(sys, s, s') && op.phase.Query?
    requires r in sys.owners && Le(op.floor[r], e) && Le(e, s.entries[r]) && Sent(s, e)
    ensures OpInv(sys, s', op.(replies := op.replies[r := e]))
  {
  }

  lemma TakeAckOk(sys: System, s: State, s': State, op: Op, r: NodeId)
    requires OpInv(sys, s, op) && Later(sys, s, s') && op.phase.Store?
    requires r in sys.owners && Le(op.tag, s.entries[r])
    ensures OpInv(sys, s', op.(acks := op.acks + {r}))
  {
  }

  /** The version stamped on a write exceeds what a read quorum held when the write was invoked. */
  lemma StampedAbove(sys: System, s: State, op: Op, version: nat)
    requires OpInv(sys, s, op) && s.entries.Keys == sys.owners && Strong(sys)
    requires Queries(sys, op) ==> |op.replies| >= R(sys)
    requires forall r | r in op.replies :: VersionBelow(op.replies[r], version)
    requires op.node in sys.owners ==> VersionBelow(s.entries[op.node], version)
    requires !op.action.Get?
    ensures |Outdated(op.floor, version)| >= R(sys)
  {
    var low := Outdated(op.floor, version);
    if Queries(sys, op) {
      forall r | r in op.replies ensures r in low {
        assert Le(op.floor[r], op.replies[r]);
      }
      SubsetSize(op.replies.Keys, low);
    } else {
      assert op.node in sys.owners && |sys.owners| == 1;
      assert Le(op.floor[op.node], s.entries[op.node]);
      SubsetSize({op.node}, low);
    }
  }

  lemma StampOk(sys: System, s: State, s': State, op: Op, version: nat)
    requires OpInv(sys, s, op) && Later(sys, s, s') && op.phase.Query? && !op.action.Get?
    requires Strong(sys) ==> |Outdated(op.floor, version)| >= R(sys)
    requires NewTag(op.action, version) in s'.writes
    ensures OpInv(sys, s', op.(phase := Store, tag := Some(NewTag(op.action, version))))
  {
  }

  /** A read that skips the write-back already knows a write quorum holding its winner. */
  lemma WinnerHeld(sys: System, s: State, op: Op, winner: Option<Tag>)
    requires OpInv(sys, s, op) && s.entries.Keys == sys.owners && Strong(sys)
    requires !WriteBack(sys, op, winner) && IsWinner(op.replies, winner)
    ensures Held(sys, s.entries, winner)
  {
    if winner.Some? {
      forall r | r in Holding(op.replies, winner) ensures r in Holders(s.entries, winner) {
        assert Le(op.replies[r], s.entries[r]);
      }
      var r :| r in op.replies && op.replies[r] == winner;
      SubsetSize({r}, Holding(op.replies, winner));
      SubsetSize(Holding(op.replies, winner), Holders(s.entries, winner));
    }
  }

  lemma WinnerSent(sys: System, s: State, op: Op, winner: Option<Tag>)
    requires OpInv(sys, s, op) && IsWinner(op.replies, winner)
    ensures Sent(s, winner)
  {
    if winner.Some? {
      var r :| r in op.replies && op.replies[r] == winner;
      assert Sent(s, op.replies[r]);
    }
  }

  lemma ResolveOk(sys: System, s: State, s': State, op: Op, winner: Option<Tag>)
    requires OpInv(sys, s, op) && Later(sys, s, s') && op.phase.Query? && op.action.Get? && op.acks == {}
    requires |op.replies| >= R(sys) && IsWinner(op.replies, winner) && Sent(s, winner)
    requires Strong(sys) && !WriteBack(sys, op, winner) ==> Held(sys, s.entries, winner)
    ensures WriteBack(sys, op, winner) ==> OpInv(sys, s', op.(tag := winner, phase := Store))
    ensures !WriteBack(sys, op, winner) ==> OpInv(sys, s', op.(tag := winner, phase := Done, end := s.time))
  {
  }

  lemma LocalReadOk(sys: System, s: State, s': State, op: Op)
    requires OpInv(sys, s, op) && Later(sys, s, s') && op.phase.Query? && op.action.Get? && op.acks == {}
    requires op.node in sys.owners && Sent(s, s.entries[op.node])
    requires R(sys) == 1 && (Strong(sys) ==> W(sys) == 1)
    ensures OpInv(sys, s', op.(replies := map[op.node := s.entries[op.node]],
                               tag := s.entries[op.node], phase := Done, end := s.time))
  {
    var e := s.entries[op.node];
    var m := map[op.node := e];
    assert m[op.node] == e && m.Keys == {op.node};
    assert IsWinner(m, e);
    assert {op.node} <= Holders(s.entries, e);
    SubsetSize({op.node}, Holders(s.entries, e));
  }

  lemma CompleteOk(sys: System, s: State, s': State, op: Op)
    requires OpInv(sys, s, op) && Later(sys, s, s') && op.phase.Store? && |op.acks| >= W(sys)
    requires op.action.Get? ==> |op.replies| >= R(sys) && IsWinner(op.replies, op.tag)
    ensures OpInv(sys, s', op.(phase := Done, end := s.time))
  {
    assert op.acks <= Holders(s.entries, op.tag);
    SubsetSize(op.acks, Holders(s.entries, op.tag));
  }

  lemma TouchedOp(sys: System, s: State, step: Step)
    requires s.entries.Keys == sys.owners && AnswersInv(sys, s) && AcksInv(sys, s) && Enabled(sys, s, step)
    requires step.TakeAnswer? || step.TakeAck? || step.Complete? || step.Fail?
    requires OpInv(sys, s, s.ops[step.id])
    ensures OpInv(sys, Next(sys, s, step), Next(sys, s, step).ops[step.id])
  {
    var s' := Next(sys, s, step);
    var op := s.ops[step.id];
    match step
    case TakeAnswer(id, r, e) =>
      assert (id, r, e) in s.answers;
      TakeAnswerOk(sys, s, s', op, r, e);
    case TakeAck(id, r) =>
      assert (id, r) in s.acked;
      TakeAckOk(sys, s, s', op, r);
    case Complete(_) => CompleteOk(sys, s, s', op);
    case Fail(_) =>
  }

  lemma StampedOp(sys: System, s: State, id: nat, version: nat)
    requires StoreInv(sys, s) && Enabled(sys, s, Stamp(id, version)) && OpInv(sys, s, s.ops[id])
    ensures OpInv(sys, Next(sys, s, Stamp(id, version)), Next(sys, s, Stamp(id, version)).ops[id])
  {
    if Strong(sys) {
      StampedAbove(sys, s, s.ops[id], version);
    }
    StampOk(sys, s, Next(sys, s, Stamp(id, version)), s.ops[id], version);
  }

  lemma DecidedOp(sys: System, s: State, step: Step)
    requires StoreInv(sys, s) && Enabled(sys, s, step)
    requires step.Stamp? || step.Resolve? || step.LocalRead?
    requires OpInv(sys, s, s.ops[step.id])
    ensures OpInv(sys, Next(sys, s, step), Next(sys, s, step).ops[step.id])
  {
    var s' := Next(sys, s, step);
    var op := s.ops[step.id];
    match step
    case Stamp(id, version) => StampedOp(sys, s, id, version);
    case Resolve(_, winner) =>
      WinnerSent(sys, s, op, winner);
      if Strong(sys) && !WriteBack(sys, op, winner) {
        WinnerHeld(sys, s, op, winner);
      }
      ResolveOk(sys, s, s', op, winner);
    case LocalRead(_) =>
      LocalReadOk(sys, s, s', op);
  }

  lemma NewOp(sys: System, s: State, node: NodeId, action: Action)
    requires s.entries.Keys == sys.owners && node in sys.nodes
    ensures OpInv(sys, Next(sys, s, Invoke(node, action)), Next(sys, s, Invoke(node, action)).ops[|s.ops|])
  {
  }

  lemma OpKept(sys: System, s: State, step: Step, i: nat)
    requires StoreInv(sys, s) && AnswersInv(sys, s) && AcksInv(sys, s) && Enabled(sys, s, step)
    requires i < |s.ops| && OpInv(sys, s, s.ops[i])
    ensures i < |Next(sys, s, step).ops| && OpInv(sys, Next(sys, s, step), Next(sys, s, step).ops[i])
  {
    if !Touches(step, i) {
      Untouched(sys, s, step, i);
      EntriesGrow(sys, s, step);
      OpInvGrows(sys, s, Next(sys, s, step), s.ops[i]);
    } else if step.Stamp? || step.Resolve? || step.LocalRead? {
      DecidedOp(sys, s, step);
    } else {
      TouchedOp(sys, s, step);
    }
  }

  lemma OpsKept(sys: System, s: State, step: Step, i: nat)
    requires Inv(sys, s) && Enabled(sys, s, step) && i < |Next(sys, s, step).ops|
    ensures OpInv(sys, Next(sys, s, step), Next(sys, s, step).ops[i])
  {
    if i < |s.ops| {
      OpKept(sys, s, step, i);
    } else {
      NewOp(sys, s, step.node, step.action);
    }
  }

  // ---------- the rest of the invariant ----------

  lemma AnswersKept(sys: System, s: State, step: Step)
    requires s.entries.Keys == sys.owners && AnswersInv(sys, s) && Enabled(sys, s, step)
    requires Extends(s, Next(sys, s, step)) && forall r | r in sys.owners :: Sent(s, s.entries[r])
    requires step.Answer? ==> OpInv(sys, s, s.ops[step.id])
    ensures AnswersInv(sys, Next(sys, s, step))
  {
    var s' := Next(sys, s, step);
    forall m | m in s'.answers
      ensures m.0 < |s'.ops| && m.1 in sys.owners && m.1 in s'.ops[m.0].floor && Sent(s', m.2)
      ensures Le(s'.ops[m.0].floor[m.1], m.2) && Le(m.2, s'.entries[m.1])
    {
      if m in s.answers {
        assert OpExtends(s.ops[m.0], s'.ops[m.0]);
        LeTransitive(m.2, s.entries[m.1], s'.entries[m.1]);
      }
    }
  }

  lemma AcksKept(sys: System, s: State, step: Step)
    requires s.entries.Keys == sys.owners && AcksInv(sys, s) && Enabled(sys, s, step)
    requires Extends(s, Next(sys, s, step))
    ensures AcksInv(sys, Next(sys, s, step))
  {
    var s' := Next(sys, s, step);
    forall m | m in s'.acked
      ensures m.0 < |s'.ops| && m.1 in sys.owners && s'.ops[m.0].tag.Some? && Le(s'.ops[m.0].tag, s'.entries[m.1])
    {
      if m in s.acked {
        assert OpExtends(s.ops[m.0], s'.ops[m.0]);
        LeTransitive(s.ops[m.0].tag, s.entries[m.1], s'.entries[m.1]);
      }
    }
  }

  lemma WritesKept(sys: System, s: State, step: Step)
    requires StoreInv(sys, s) && Enabled(sys, s, step) && Extends(s, Next(sys, s, step))
    ensures forall t | t in Next(sys, s, step).writes :: exists id: nat :: Stamped(Next(sys, s, step), id, t)
  {
    var s' := Next(sys, s, step);
    forall t | t in s'.writes ensures exists id: nat :: Stamped(s', id, t) {
      if t in s.writes {
        var id: nat :| Stamped(s, id, t);
        assert OpExtends(s.ops[id], s'.ops[id]);
        assert Stamped(s', id, t);
      } else {
        assert Stamped(s', step.id, t);
      }
    }
  }

  lemma EntryKept(sys: System, s: State, step: Step, r: NodeId)
    requires StoreInv(sys, s) && Enabled(sys, s, step) && r in sys.owners
    requires step.DeliverRpc? ==> Sent(s, s.ops[step.id].tag)
    ensures var s' := Next(sys, s, step);
      && s'.entries.Keys == sys.owners && Sent(s', s'.entries[r])
      && (s'.entries[r].Some? ==> s'.entries[r].value.version <= Clock(s', r))
  {
  }

  lemma StoreKept(sys: System, s: State, step: Step)
    requires StoreInv(sys, s) && Enabled(sys, s, step) && Extends(s, Next(sys, s, step))
    requires step.DeliverRpc? ==> Sent(s, s.ops[step.id].tag)
    ensures StoreInv(sys, Next(sys, s, step))
  {
    WritesKept(sys, s, step);
    EntriesGrow(sys, s, step);
    var s' := Next(sys, s, step);
    forall r | r in sys.owners
      ensures r in s'.entries && Sent(s', s'.entries[r])
      ensures s'.entries[r].Some? ==> s'.entries[r].value.version <= Clock(s', r)
    {
      EntryKept(sys, s, step, r);
    }
  }

  lemma MessagesKept(sys: System, s: State, step: Step)
    requires Inv(sys, s) && Enabled(sys, s, step)
    ensures StoreInv(sys, Next(sys, s, step))
    ensures AnswersInv(sys, Next(sys, s, step)) && AcksInv(sys, Next(sys, s, step))
  {
    InvExtends(sys, s, step);
    if step.Answer? || step.DeliverRpc? {
      assert OpInv(sys, s, s.ops[step.id]);
    }
    AnswersKept(sys, s, step);
    AcksKept(sys, s, step);
    StoreKept(sys, s, step);
  }

  lemma OrderPair(sys: System, s: State, s': State, i: nat, j: nat)
    requires Inv(sys, s) && Extends(s, s') && s'.time == s.time + 1
    requires i < |s'.ops| && j < |s'.ops| && OpInv(sys, s', s'.ops[j])
    requires Binding(sys, s'.ops[i]) && s'.ops[i].end < s'.ops[j].start
    ensures Held(sys, s'.ops[j].floor, s'.ops[i].tag)
  {
    assert i < |s.ops| && OpExtends(s.ops[i], s'.ops[i]);
    assert OpInv(sys, s, s.ops[i]);
    if j < |s.ops| {
      assert OpExtends(s.ops[j], s'.ops[j]);
    }
  }

  lemma OrderKept(sys: System, s: State, step: Step)
    requires Inv(sys, s) && Enabled(sys, s, step)
    ensures OrderInv(sys, Next(sys, s, step))
  {
    var s' := Next(sys, s, step);
    InvExtends(sys, s, step);
    forall i, j | 0 <= i < |s'.ops| && 0 <= j < |s'.ops| && Binding(sys, s'.ops[i]) && s'.ops[i].end < s'.ops[j].start
      ensures Held(sys, s'.ops[j].floor, s'.ops[i].tag)
    {
      OpsKept(sys, s, step, j);
      OrderPair(sys, s, s', i, j);
    }
  }

  lemma InvKept(sys: System, s: State, step: Step)
    requires Inv(sys, s) && Enabled(sys, s, step)
    ensures Inv(sys, Next(sys, s, step))
  {
    MessagesKept(sys, s, step);
    OrderKept(sys, s, step);
    forall i | 0 <= i < |Next(sys, s, step).ops| ensures OpInv(sys, Next(sys, s, step), Next(sys, s, step).ops[i]) {
      OpsKept(sys, s, step, i);
    }
  }

  /** Every state of every run satisfies the invariant. */
  lemma {:induction false} RunInv(sys: System, trace: seq<State>, i: nat)
    requires IsRun(sys, trace) && i < |trace|
    ensures Inv(sys, trace[i])
  {
    if i > 0 {
      RunInv(sys, trace, i - 1);
      assert Follows(sys, trace, i - 1);
      var step :| Transition(sys, trace[i - 1], trace[i], step);
      InvKept(sys, trace[i - 1], step);
    }
  }

  // ---------- what intersecting quorums give ----------

  /** A read invoked after a binding operation finished returns a tag at least as large. */
  lemma LaterReadSees(sys: System, s: State, i: nat, j: nat)
    requires Inv(sys, s) && Intersecting(sys) && i < |s.ops| && j < |s.ops|
    requires Binding(sys, s.ops[i]) && s.ops[i].end < s.ops[j].start
    requires s.ops[j].phase.Done? && s.ops[j].action.Get?
    ensures Le(s.ops[i].tag, s.ops[j].tag)
  {
    var a, b := s.ops[i], s.ops[j];
    assert OpInv(sys, s, b) && Held(sys, b.floor, a.tag);
    if a.tag.Some? {
      var r := QuorumsMeet(sys.owners, Holders(b.floor, a.tag), b.replies.Keys);
      LeTransitive(a.tag, b.floor[r], b.replies[r]);
      LeTransitive(a.tag, b.replies[r], b.tag);
    }
  }

  lemma OutdatedHolder(all: set<NodeId>, m: Entries, t: Option<Tag>, v: nat)
    requires m.Keys == all && |Holders(m, t)| + |Outdated(m, v)| > |all|
    ensures VersionBelow(t, v)
  {
    var r := QuorumsMeet(all, Holders(m, t), Outdated(m, v));
  }

  /** In linearizable mode, or alone, a write invoked after an operation finished has a larger version. */
  lemma LaterWriteAbove(sys: System, s: State, i: nat, j: nat)
    requires Inv(sys, s) && Intersecting(sys) && Strong(sys) && i < |s.ops| && j < |s.ops|
    requires s.ops[i].phase.Done? && s.ops[i].end < s.ops[j].start
    requires !s.ops[j].action.Get? && s.ops[j].tag.Some?
    ensures VersionBelow(s.ops[i].tag, s.ops[j].tag.value.version)
  {
    var a, b := s.ops[i], s.ops[j];
    assert OpInv(sys, s, b) && Held(sys, b.floor, a.tag);
    if a.tag.Some? {
      OutdatedHolder(sys.owners, b.floor, a.tag, b.tag.value.version);
    }
  }

  /**
    In both consistency modes, with intersecting quorums: a read that starts after a write was
    acknowledged returns that write's tag or a larger one.
   */
  lemma ReadsSeeAcknowledgedWrites(sys: System, trace: seq<State>, n: nat, w: nat, r: nat)
    requires IsRun(sys, trace) && Intersecting(sys) && n < |trace|
    requires w < |trace[n].ops| && r < |trace[n].ops|
    requires var write := trace[n].ops[w]; !write.action.Get? && write.phase.Done?
    requires var read := trace[n].ops[r]; read.action.Get? && read.phase.Done?
    requires trace[n].ops[w].end < trace[n].ops[r].start
    ensures Le(trace[n].ops[w].tag, trace[n].ops[r].tag)
    ensures trace[n].ops[w].tag.Some?
  {
    RunInv(sys, trace, n);
    assert OpInv(sys, trace[n], trace[n].ops[w]);
    LaterReadSees(sys, trace[n], w, r);
  }
}
