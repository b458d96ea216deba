/**
  The guarantees of Replication and Linearization hold under exactly the conditions named there: when
  one fails, a run that breaks the guarantee is built, for every cluster size and quorum setting.
 */
module QuorumLimits {
  import opened Options
  import opened Versions
  import opened Quorums
  import opened Histories
  import opened Replication
  import opened Linearization

  // ---------- building runs ----------

  ghost predicate Reach(sys: System, s: State) {
    s.entries.Keys == sys.owners && exists trace :: IsRun(sys, trace) && trace[|trace| - 1] == s
  }

  lemma InitReach(sys: System)
    ensures Reach(sys, Init(sys))
  {
    assert IsRun(sys, [Init(sys)]);
  }

  lemma Extend(sys: System, s: State, step: Replication.Step)
    requires Reach(sys, s) && Enabled(sys, s, step)
    ensures Reach(sys, Next(sys, s, step))
  {
    var trace :| IsRun(sys, trace) && trace[|trace| - 1] == s;
    var s' := Next(sys, s, step);
    EntriesGrow(sys, s, step);
    assert Transition(sys, s, s', step);
    var longer := trace + [s'];
    forall i | 0 <= i < |longer| - 1 ensures Follows(sys, longer, i) {
      if i < |trace| - 1 {
        assert Follows(sys, trace, i);
      }
    }
    assert IsRun(sys, longer);
  }

  lemma Begin(sys: System, s: State, node: NodeId, action: Action) returns (s': State)
    requires Reach(sys, s) && node in sys.nodes
    ensures Reach(sys, s') && s'.entries == s.entries && s'.clocks == s.clocks && s'.time == s.time + 1
    ensures s'.ops == s.ops + [Op(node, action, s.time, s.entries, Query, map[], None, {}, 0)]
  {
    Extend(sys, s, Invoke(node, action));
    s' := Next(sys, s, Invoke(node, action));
  }

  lemma End(sys: System, s: State, id: nat) returns (s': State)
    requires Reach(sys, s) && Pending(s, id, Store) && |s.ops[id].acks| >= W(sys)
    requires AskedItself(sys, s.ops[id].node, s.ops[id].acks)
    ensures Reach(sys, s') && s'.entries == s.entries && s'.clocks == s.clocks && s'.time == s.time + 1
    ensures s'.ops == s.ops[id := s.ops[id].(phase := Done, end := s.time)]
  {
    Extend(sys, s, Complete(id));
    s' := Next(sys, s, Complete(id));
  }

  /** One replica answers the query of `id`. */
  lemma AnswerOne(sys: System, s: State, id: nat, r: NodeId) returns (s': State)
    requires Reach(sys, s) && Pending(s, id, Query) && Queries(sys, s.ops[id])
    requires r in sys.owners && r !in s.ops[id].replies
    ensures Reach(sys, s') && s'.entries == s.entries && s'.clocks == s.clocks && s.time <= s'.time
    ensures s'.ops == s.ops[id := s.ops[id].(replies := s.ops[id].replies[r := s.entries[r]])]
  {
    Extend(sys, s, Answer(id, r));
    var s1 := Next(sys, s, Answer(id, r));
    Extend(sys, s1, TakeAnswer(id, r, s.entries[r]));
    s' := Next(sys, s1, TakeAnswer(id, r, s.entries[r]));
  }

  function Restrict(m: Entries, q: set<NodeId>): Entries {
    map r | r in m && r in q :: m[r]
  }

  lemma {:induction false} AnswerAll(sys: System, s: State, id: nat, q: set<NodeId>) returns (s': State)
    requires Reach(sys, s) && Pending(s, id, Query) && Queries(sys, s.ops[id])
    requires q <= sys.owners && q !! s.ops[id].replies.Keys
    ensures Reach(sys, s') && s'.entries == s.entries && s'.clocks == s.clocks && s.time <= s'.time
    ensures s'.ops == s.ops[id := s.ops[id].(replies := s.ops[id].replies + Restrict(s.entries, q))]
    decreases |q|
  {
    if q == {} {
      s' := s;
      assert s.ops[id].replies + Restrict(s.entries, q) == s.ops[id].replies;
    } else {
      var r :| r in q;
      var s1 := AnswerOne(sys, s, id, r);
      s' := AnswerAll(sys, s1, id, q - {r});
      assert s.ops[id].replies[r := s.entries[r]] + Restrict(s.entries, q - {r}) ==
             s.ops[id].replies + Restrict(s.entries, q);
    }
  }

  /** One replica stores the tag of `id` and acknowledges. */
  lemma AckOne(sys: System, s: State, id: nat, r: NodeId) returns (s': State)
    requires Reach(sys, s) && Pending(s, id, Store) && s.ops[id].tag.Some? && r in sys.owners
    ensures Reach(sys, s') && s.time <= s'.time
    ensures s'.entries == s.entries[r := Merge(s.entries[r], s.ops[id].tag.value)]
    ensures forall n | n != r :: Clock(s', n) == Clock(s, n)
    ensures Clock(s', r) == Max(Clock(s, r), s.ops[id].tag.value.version)
    ensures s'.ops == s.ops[id := s.ops[id].(acks := s.ops[id].acks + {r})]
  {
    Extend(sys, s, DeliverRpc(id, r));
    var s1 := Next(sys, s, DeliverRpc(id, r));
    Extend(sys, s1, TakeAck(id, r));
    s' := Next(sys, s1, TakeAck(id, r));
  }

  /** The replicas in `a` have merged `t`, the others are as they were. */
  ghost predicate Delivered(m: Entries, m': Entries, a: set<NodeId>, t: Tag) {
    m'.Keys == m.Keys && forall r | r in m :: m'[r] == if r in a then Merge(m[r], t) else m[r]
  }

  lemma DeliveredNext(m: Entries, m1: Entries, m2: Entries, r: NodeId, a: set<NodeId>, t: Tag)
    requires r in m && r in a && m1 == m[r := Merge(m[r], t)] && Delivered(m1, m2, a - {r}, t)
    ensures Delivered(m, m2, a, t)
  {
  }

  lemma {:induction false} AckAll(sys: System, s: State, id: nat, a: set<NodeId>) returns (s': State)
    requires Reach(sys, s) && Pending(s, id, Store) && s.ops[id].tag.Some? && a <= sys.owners
    ensures Reach(sys, s') && s.time <= s'.time
    ensures Delivered(s.entries, s'.entries, a, s.ops[id].tag.value)
    ensures forall n :: Clock(s', n) <= Max(Clock(s, n), s.ops[id].tag.value.version)
    ensures s'.ops == s.ops[id := s.ops[id].(acks := s.ops[id].acks + a)]
    decreases |a|
  {
    if a == {} {
      s' := s;
      assert s.ops[id].acks + a == s.ops[id].acks;
    } else {
      var r :| r in a;
      var s1 := AckOne(sys, s, id, r);
      s' := AckAll(sys, s1, id, a - {r});
      assert s.ops[id].acks + {r} + (a - {r}) == s.ops[id].acks + a;
      DeliveredNext(s.entries, s1.entries, s'.entries, r, a, s.ops[id].tag.value);
    }
  }

  // ---------- whole operations ----------

  /** A finished operation that began at `start`. */
  predicate Finished(op: Op, action: Action, tag: Tag, start: nat, now: nat) {
    op.action == action && op.phase.Done? && op.tag == Some(tag) && op.start == start && start <= op.end < now
  }

  /** A version a coordinator may stamp, given who answers it; in quorum mode nobody is asked. */
  ghost predicate MayStamp(sys: System, s: State, node: NodeId, version: nat, q: set<NodeId>)
    requires s.entries.Keys == sys.owners
  {
    && node in sys.nodes && q <= sys.owners && version > Clock(s, node)
    && (Abd(sys) ==>
          && !CanServeLocally(sys.config, sys.owners, node, true)
          && |q| >= R(sys) && AskedItself(sys, node, q) && forall r | r in q :: VersionBelow(s.entries[r], version))
  }

  /** Up to the stamp: in linearizable mode after the replicas in `q` answered. */
  lemma StampPut(sys: System, s: State, node: NodeId, value: string, version: nat, q: set<NodeId>) returns (s': State)
    requires Reach(sys, s) && MayStamp(sys, s, node, version, q)
    ensures Reach(sys, s') && s'.entries == s.entries && s.time < s'.time
    ensures forall n | n != node :: Clock(s', n) == Clock(s, n)
    ensures Clock(s', node) == version
    ensures |s'.ops| == |s.ops| + 1 && s'.ops[..|s.ops|] == s.ops
    ensures var op := s'.ops[|s.ops|];
      && op.node == node && op.action == Put(value) && op.phase.Store? && op.start == s.time && op.acks == {}
      && op.tag == Some(Tag(version, false, value))
  {
    var id := |s.ops|;
    var s1 := Begin(sys, s, node, Put(value));
    var s2 := s1;
    if Abd(sys) {
      s2 := AnswerAll(sys, s1, id, q);
      assert s2.ops[id].replies == Restrict(s.entries, q);
      assert Restrict(s.entries, q).Keys == q;
    }
    assert s2.ops[..id] == s.ops;
    s' := StampOp(sys, s2, id, version);
  }

  lemma StampOp(sys: System, s: State, id: nat, version: nat) returns (s': State)
    requires Reach(sys, s) && Enabled(sys, s, Stamp(id, version))
    ensures Reach(sys, s') && s'.entries == s.entries && s'.time == s.time + 1
    ensures s'.clocks == s.clocks[s.ops[id].node := version]
    ensures s'.ops == s.ops[id := s.ops[id].(phase := Store, tag := Some(NewTag(s.ops[id].action, version)))]
  {
    Extend(sys, s, Stamp(id, version));
    s' := Next(sys, s, Stamp(id, version));
  }

  /** A put that the replicas in `a` acknowledge. */
  lemma PutRun(sys: System, s: State, node: NodeId, value: string, version: nat, q: set<NodeId>, a: set<NodeId>)
    returns (s': State)
    requires Reach(sys, s) && MayStamp(sys, s, node, version, q)
    requires a <= sys.owners && |a| >= W(sys) && AskedItself(sys, node, a)
    ensures Reach(sys, s') && s.time < s'.time
    ensures Delivered(s.entries, s'.entries, a, Tag(version, false, value))
    ensures |s'.ops| == |s.ops| + 1 && s'.ops[..|s.ops|] == s.ops
    ensures Finished(s'.ops[|s.ops|], Put(value), Tag(version, false, value), s.time, s'.time)
    ensures forall n :: Clock(s', n) <= Max(Clock(s, n), version)
  {
    var id := |s.ops|;
    var s1 := StampPut(sys, s, node, value, version, q);
    var s2 := AckAll(sys, s1, id, a);
    assert s2.ops[id].acks == a;
    s' := End(sys, s2, id);
    assert s2.ops[..id] == s1.ops[..id];
    assert s'.ops[..id] == s2.ops[..id];
  }

  /** What a read at `node` returns when `q` answers: the winner, or its own copy if that suffices. */
  ghost predicate WouldRead(sys: System, s: State, node: NodeId, q: set<NodeId>, t: Tag)
    requires s.entries.Keys == sys.owners
  {
    && node in sys.nodes && q <= sys.owners && |q| >= R(sys) && AskedItself(sys, node, q)
    && IsWinner(Restrict(s.entries, q), Some(t)) && (node in sys.owners ==> s.entries[node] == Some(t))
  }

  /** Up to the decision: the replicas in `q` answered. */
  lemma QueryGet(sys: System, s: State, node: NodeId, q: set<NodeId>, t: Tag) returns (s': State)
    requires Reach(sys, s) && WouldRead(sys, s, node, q, t) && !CanServeLocally(sys.config, sys.owners, node, false)
    ensures Reach(sys, s') && s.time < s'.time && s'.entries == s.entries && s'.clocks == s.clocks
    ensures |s'.ops| == |s.ops| + 1 && s'.ops[..|s.ops|] == s.ops
    ensures var op := s'.ops[|s.ops|];
      && op.action == Get && op.phase.Query? && op.start == s.time && op.acks == {} && op.node == node
      && op.replies == Restrict(s.entries, q) && op.replies.Keys == q
  {
    var id := |s.ops|;
    var s1 := Begin(sys, s, node, Get);
    s' := AnswerAll(sys, s1, id, q);
    assert s'.ops[id].replies == Restrict(s.entries, q);
    assert Restrict(s.entries, q).Keys == q;
  }

  /** The decision, with the write-back it may need acknowledged by all owners. */
  lemma Decide(sys: System, s: State, id: nat, t: Tag) returns (s': State)
    requires Reach(sys, s) && sys.owners != {} && Pending(s, id, Query)
    requires s.ops[id].action == Get && s.ops[id].start < s.time
    requires |s.ops[id].replies| >= R(sys) && IsWinner(s.ops[id].replies, Some(t))
    requires AskedItself(sys, s.ops[id].node, s.ops[id].replies.Keys)
    ensures Reach(sys, s') && |s'.ops| == |s.ops| && s'.ops[..id] == s.ops[..id]
    ensures Finished(s'.ops[id], Get, t, s.ops[id].start, s'.time)
    ensures !Abd(sys) ==> s'.entries == s.entries && forall n | n != s.ops[id].node :: Clock(s', n) == Clock(s, n)
  {
    Extend(sys, s, Resolve(id, Some(t)));
    var s1 := Next(sys, s, Resolve(id, Some(t)));
    if s1.ops[id].phase.Store? {
      var s2 := AckAll(sys, s1, id, sys.owners);
      SubsetSize(sys.owners, s2.ops[id].acks);
      s' := End(sys, s2, id);
    } else {
      s' := s1;
    }
  }

  lemma LocalGet(sys: System, s: State, node: NodeId, t: Tag) returns (s': State)
    requires Reach(sys, s) && node in sys.nodes && CanServeLocally(sys.config, sys.owners, node, false)
    requires s.entries[node] == Some(t)
    ensures Reach(sys, s') && s'.entries == s.entries && s'.clocks == s.clocks
    ensures |s'.ops| == |s.ops| + 1 && s'.ops[..|s.ops|] == s.ops
    ensures Finished(s'.ops[|s.ops|], Get, t, s.time, s'.time)
  {
    var id := |s.ops|;
    var s1 := Begin(sys, s, node, Get);
    Extend(sys, s1, LocalRead(id));
    s' := Next(sys, s1, LocalRead(id));
  }

  lemma GetRun(sys: System, s: State, node: NodeId, q: set<NodeId>, t: Tag) returns (s': State)
    requires Reach(sys, s) && sys.owners != {} && WouldRead(sys, s, node, q, t)
    ensures Reach(sys, s')
    ensures |s'.ops| == |s.ops| + 1 && s'.ops[..|s.ops|] == s.ops
    ensures Finished(s'.ops[|s.ops|], Get, t, s.time, s'.time)
    ensures !Abd(sys) ==> s'.entries == s.entries && forall n | n != node :: Clock(s', n) == Clock(s, n)
  {
    if CanServeLocally(sys.config, sys.owners, node, false) {
      s' := LocalGet(sys, s, node, t);
    } else {
      var s1 := QueryGet(sys, s, node, q, t);
      s' := Decide(sys, s1, |s.ops|, t);
      assert s'.ops[..|s.ops|] == s1.ops[..|s.ops|];
    }
  }

  // ---------- runs that break the guarantees ----------

  lemma {:induction false} ChooseSome<T>(s: set<T>, k: nat) returns (a: set<T>)
    requires k <= |s|
    ensures a <= s && |a| == k
    decreases |s|
  {
    if k == |s| {
      a := s;
    } else {
      var x :| x in s;
      a := ChooseSome(s - {x}, k);
    }
  }

  /** Three finished operations, one after the other; the last, a read, returns the first put's value. */
  ghost predicate ReadsFirst(s: State, t0: Tag, t1: Tag) {
    && |s.ops| == 3 && !t0.tombstone && t0.value != t1.value
    && Finished(s.ops[0], Put(t0.value), t0, s.ops[0].start, s.ops[1].start)
    && Finished(s.ops[1], Put(t1.value), t1, s.ops[1].start, s.ops[2].start)
    && Finished(s.ops[2], Get, t0, s.ops[2].start, s.time)
  }

  /** Quorums that need not meet: the second write reaches none of those the read asks. */
  lemma DisjointQuorums(sys: System) returns (b: NodeId, c: NodeId, reached: set<NodeId>, q: set<NodeId>)
    requires sys.owners != {} && !Intersecting(sys)
    ensures b in reached && c in q && reached !! q && reached <= sys.owners && q <= sys.owners
    ensures |reached| == W(sys) && |q| == R(sys)
  {
    var all := sys.owners;
    b :| b in all;
    assert |all - {b}| == |all| - 1;
    var others := ChooseSome(all - {b}, W(sys) - 1);
    reached := others + {b};
    assert |all - reached| == |all| - |reached|;
    q := ChooseSome(all - reached, R(sys));
    c :| c in q;
  }

  /** The first put reaches everyone. */
  lemma FirstPut(sys: System, c: NodeId) returns (s: State)
    requires |sys.owners| > 1 && sys.owners <= sys.nodes && c in sys.owners
    ensures Reach(sys, s) && |s.ops| == 1 && forall r | r in sys.owners :: s.entries[r] == Some(Tag(1, false, "0"))
    ensures Finished(s.ops[0], Put("0"), Tag(1, false, "0"), 0, s.time) && forall n :: Clock(s, n) <= 1
  {
    InitReach(sys);
    s := PutRun(sys, Init(sys), c, "0", 1, sys.owners, sys.owners);
  }

  lemma UnreachedWins(sys: System, s: State, c: NodeId, q: set<NodeId>, t: Tag)
    requires s.entries.Keys == sys.owners <= sys.nodes && c in q && q <= sys.owners && |q| >= R(sys)
    requires forall r | r in q :: s.entries[r] == Some(t)
    ensures WouldRead(sys, s, c, q, t)
  {
    assert Restrict(s.entries, q)[c] == Some(t);
  }

  lemma DisjointRun(sys: System) returns (s: State)
    requires sys.owners != {} && sys.owners <= sys.nodes && !Intersecting(sys)
    ensures Reach(sys, s) && ReadsFirst(s, Tag(1, false, "0"), Tag(2, false, "1"))
  {
    var b, c, reached, q := DisjointQuorums(sys);
    SubsetSize({b, c}, sys.owners);
    var s1 := FirstPut(sys, c);
    var s2 := PutRun(sys, s1, b, "1", 2, sys.owners, reached);
    UnreachedWins(sys, s2, c, q, Tag(1, false, "0"));
    s := GetRun(sys, s2, c, q, Tag(1, false, "0"));
    assert s.ops[0] == s2.ops[0] == s1.ops[0] && s.ops[1] == s2.ops[1];
  }

  /** A put in flight, a read that shows it, another put, and a read that shows the first again. */
  ghost predicate ReadsAround(s: State, t0: Tag, t1: Tag) {
    && |s.ops| == 4 && !t0.tombstone && t0.value != t1.value
    && s.ops[0].action == Put(t0.value)
    && Finished(s.ops[1], Get, t0, s.ops[1].start, s.ops[2].start)
    && Finished(s.ops[2], Put(t1.value), t1, s.ops[2].start, s.ops[3].start)
    && Finished(s.ops[3], Get, t0, s.ops[3].start, s.time)
  }

  /** One owner applies its own put, which then stays in flight, and reads it. */
  lemma SeenInFlight(sys: System, a: NodeId, t: Tag) returns (s: State)
    requires sys.owners <= sys.nodes && a in sys.owners && !Abd(sys) && t.version > 0 && !t.tombstone
    ensures Reach(sys, s) && |s.ops| == 2 && s.ops[0].action == Put(t.value)
    ensures Finished(s.ops[1], Get, t, s.ops[1].start, s.time)
    ensures forall r | r in sys.owners :: s.entries[r] == if r == a then Some(t) else None
    ensures forall n | n != a :: Clock(s, n) == 0
  {
    InitReach(sys);
    var s1 := StampPut(sys, Init(sys), a, t.value, t.version, {});
    var s2 := AckOne(sys, s1, 0, a);
    OwnCopyWins(sys, s2, a, t);
    s := GetRun(sys, s2, a, sys.owners, t);
    assert s.ops[0] == s2.ops[0];
  }

  lemma SecondNode(sys: System, a: NodeId) returns (b: NodeId)
    requires |sys.nodes| > 1
    ensures b in sys.nodes && b != a
  {
    if sys.nodes <= {a} {
      SubsetSize(sys.nodes, {a});
      assert false;
    }
    b :| b in sys.nodes && b != a;
  }

  /** Quorum mode with a second node: its clock is behind a write that only the first has seen. */
  lemma SlowClockRun(sys: System) returns (s: State)
    requires sys.owners != {} && sys.owners <= sys.nodes && |sys.nodes| > 1 && !Abd(sys)
    ensures Reach(sys, s) && ReadsAround(s, Tag(2, false, "1"), Tag(1, false, "0"))
  {
    var a :| a in sys.owners;
    SubsetSize({a}, sys.owners);
    var b := SecondNode(sys, a);
    var s1 := SeenInFlight(sys, a, Tag(2, false, "1"));
    var s2 := PutRun(sys, s1, b, "0", 1, {}, sys.owners);
    OwnCopyWins(sys, s2, a, Tag(2, false, "1"));
    s := GetRun(sys, s2, a, sys.owners, Tag(2, false, "1"));
    assert s.ops[0] == s2.ops[0] == s1.ops[0] && s.ops[1] == s2.ops[1] == s1.ops[1] && s.ops[2] == s2.ops[2];
  }

  lemma OwnCopyWins(sys: System, s: State, a: NodeId, t: Tag)
    requires s.entries.Keys == sys.owners && a in sys.owners && sys.owners <= sys.nodes && s.entries[a] == Some(t)
    requires forall r | r in sys.owners :: Le(s.entries[r], Some(t))
    ensures WouldRead(sys, s, a, sys.owners, t)
  {
    SubsetSize({a}, sys.owners);
    assert Restrict(s.entries, sys.owners)[a] == Some(t);
  }

  // ---------- the exact conditions ----------

  /** A linearization, but for legality. */
  ghost predicate Arranged(h: seq<Operation>, key: string, lin: seq<nat>) {
    && ValidIndices(h, lin)
    && (forall i, j | 0 <= i < j < |lin| :: lin[i] != lin[j])
    && (forall k: nat | k < |h| && h[k].key == key && h[k].ret.Some? :: k in lin)
    && (forall i, j | 0 <= i < j < |lin| :: !Precedes(h[lin[j]], h[lin[i]]))
  }

  lemma OneOfThree(h: seq<Operation>, key: string, lin: seq<nat>, i: nat, p0: nat, p1: nat, p2: nat)
    requires |h| == 3 && Arranged(h, key, lin) && i < |lin| && p0 < |lin| && p1 < |lin| && p2 < |lin|
    requires lin[p0] == 0 && lin[p1] == 1 && lin[p2] == 2
    ensures i == p0 || i == p1 || i == p2
  {
    assert lin[i] < 3;
  }

  lemma ThreeInOrder(h: seq<Operation>, key: string, lin: seq<nat>)
    requires |h| == 3 && Arranged(h, key, lin) && (forall k | 0 <= k < 3 :: h[k].key == key && h[k].ret.Some?)
    requires Precedes(h[0], h[1]) && Precedes(h[1], h[2])
    ensures lin == [0, 1, 2]
  {
    assert h[0].ret.Some? && h[1].ret.Some? && h[2].ret.Some?;
    var p0 :| 0 <= p0 < |lin| && lin[p0] == 0;
    var p1 :| 0 <= p1 < |lin| && lin[p1] == 1;
    var p2 :| 0 <= p2 < |lin| && lin[p2] == 2;
    assert p0 < p1 && p1 < p2;
    OneOfThree(h, key, lin, 0, p0, p1, p2);
    OneOfThree(h, key, lin, 1, p0, p1, p2);
    OneOfThree(h, key, lin, 2, p0, p1, p2);
    OneOfThree(h, key, lin, |lin| - 1, p0, p1, p2);
  }

  /** Putting x, then y, then reading x has no linearization. */
  lemma ReadsFirstRefutes(s: State, t0: Tag, t1: Tag, key: string)
    requires ReadsFirst(s, t0, t1)
    ensures !Linearizable(HistoryOf(s, key))
  {
    var h := HistoryOf(s, key);
    assert Precedes(h[0], h[1]) && Precedes(h[1], h[2]);
    assert !Legal(h, [0, 1, 2]) by {
      assert [0, 1, 2][..2] == [0, 1] && [0, 1][..1] == [0];
      assert After(h, [0, 1]) == Some(t1.value);
    }
    forall lin ensures !IsLinearization(h, key, lin) {
      if Arranged(h, key, lin) {
        ThreeInOrder(h, key, lin);
      }
    }
    assert !LinearizableOn(h, key);
  }

  /** A read shows the value of a put placed before it, with only reads between. */
  lemma WriterOf(h: seq<Operation>, lin: seq<nat>, p: nat, v: string) returns (w: nat)
    requires ValidIndices(h, lin) && Legal(h, lin) && p < |lin| && h[lin[p]].action.Get? && h[lin[p]].output == Some(v)
    ensures w < p && h[lin[w]].action == Put(v) && forall i | w < i < p :: h[lin[i]].action.Get?
  {
    LegalRead(h, lin, p);
    w := FoundValueWasPut(h, lin[..p]);
    forall i | w < i < p ensures h[lin[i]].action.Get? {
      assert lin[..p][i] == lin[i];
    }
  }

  lemma NoOrderAround(h: seq<Operation>, key: string, lin: seq<nat>, v: string)
    requires |h| == 4 && Arranged(h, key, lin)
    requires forall k | 1 <= k < 4 :: h[k].key == key && h[k].ret.Some?
    requires h[0].action == Put(v) && h[2].action.Put? && h[2].action != Put(v)
    requires h[1].action.Get? && h[1].output == Some(v) && h[3].action.Get? && h[3].output == Some(v)
    requires Precedes(h[1], h[2]) && Precedes(h[2], h[3])
    ensures !Legal(h, lin)
  {
    assert h[1].ret.Some? && h[2].ret.Some? && h[3].ret.Some?;
    var p1 :| 0 <= p1 < |lin| && lin[p1] == 1;
    var p2 :| 0 <= p2 < |lin| && lin[p2] == 2;
    var p3 :| 0 <= p3 < |lin| && lin[p3] == 3;
    assert p1 < p2 && p2 < p3;
    if Legal(h, lin) {
      var w1 := WriterOf(h, lin, p1, v);
      var w3 := WriterOf(h, lin, p3, v);
      OnlyPut(h, lin, w1);
      OnlyPut(h, lin, w3);
    }
  }

  lemma OnlyPut(h: seq<Operation>, lin: seq<nat>, w: nat)
    requires |h| == 4 && ValidIndices(h, lin) && w < |lin| && h[lin[w]].action == h[0].action && h[0].action.Put?
    requires h[1].action.Get? && h[3].action.Get? && h[2].action != h[0].action
    ensures lin[w] == 0
  {
    assert lin[w] < 4;
  }

  lemma ReadsAroundRefutes(s: State, t0: Tag, t1: Tag, key: string)
    requires ReadsAround(s, t0, t1)
    ensures !Linearizable(HistoryOf(s, key))
  {
    var h := HistoryOf(s, key);
    assert Precedes(h[1], h[2]) && Precedes(h[2], h[3]);
    forall lin ensures !IsLinearization(h, key, lin) {
      if Arranged(h, key, lin) {
        NoOrderAround(h, key, lin, t0.value);
      }
    }
    assert !LinearizableOn(h, key);
  }

  ghost predicate AlwaysLinearizable(sys: System, key: string) {
    forall trace, n: nat | IsRun(sys, trace) && n < |trace| :: Linearizable(HistoryOf(trace[n], key))
  }

  lemma NotAlways(sys: System, s: State, key: string)
    requires Reach(sys, s) && !Linearizable(HistoryOf(s, key))
    ensures !AlwaysLinearizable(sys, key)
  {
    var trace :| IsRun(sys, trace) && trace[|trace| - 1] == s;
    assert !Linearizable(HistoryOf(trace[|trace| - 1], key));
  }

  lemma OneNode(sys: System)
    requires sys.owners != {} && sys.owners <= sys.nodes
    ensures |sys.nodes| == 1 <==> Alone(sys)
    ensures |sys.nodes| >= 1
  {
    SubsetSize(sys.owners, sys.nodes);
    var a :| a in sys.owners;
    SubsetSize({a}, sys.owners);
    if |sys.nodes| == 1 && sys.owners != sys.nodes {
      var b :| b in sys.nodes && b !in sys.owners;
      SubsetSize({a, b}, sys.nodes);
    }
  }

  /**
    Every run of a cluster whose nodes own the key is linearizable if and only if the resolved
    quorums intersect and either the mode is linearizable or there is only one node.
   */
  lemma LinearizableExactly(sys: System, key: string)
    requires sys.owners != {} && sys.owners <= sys.nodes
    ensures AlwaysLinearizable(sys, key) <==> Intersecting(sys) && (Abd(sys) || |sys.nodes| == 1)
  {
    OneNode(sys);
    if Intersecting(sys) && Strong(sys) {
      forall trace, n: nat | IsRun(sys, trace) && n < |trace| ensures Linearizable(HistoryOf(trace[n], key)) {
        RunsAreLinearizable(sys, trace, n, key);
      }
    } else if !Intersecting(sys) {
      var s := DisjointRun(sys);
      ReadsFirstRefutes(s, Tag(1, false, "0"), Tag(2, false, "1"), key);
      NotAlways(sys, s, key);
    } else {
      var s := SlowClockRun(sys);
      ReadsAroundRefutes(s, Tag(2, false, "1"), Tag(1, false, "0"), key);
      NotAlways(sys, s, key);
    }
  }

  /** A read invoked after a write finished returns a tag at least as large. */
  ghost predicate SeesFinished(s: State) {
    forall w, r | 0 <= w < |s.ops| && 0 <= r < |s.ops| && !s.ops[w].action.Get? && s.ops[w].phase.Done?
                  && s.ops[r].action.Get? && s.ops[r].phase.Done? && s.ops[w].end < s.ops[r].start ::
      Le(s.ops[w].tag, s.ops[r].tag)
  }

  /** In either mode, reads always see acknowledged writes if and only if the quorums intersect. */
  lemma FreshReadsExactly(sys: System)
    requires sys.owners != {} && sys.owners <= sys.nodes
    ensures (forall trace, n: nat | IsRun(sys, trace) && n < |trace| :: SeesFinished(trace[n])) <==> Intersecting(sys)
  {
    if Intersecting(sys) {
      forall trace, n: nat | IsRun(sys, trace) && n < |trace| ensures SeesFinished(trace[n]) {
        RunSees(sys, trace, n);
      }
    } else {
      var s := DisjointRun(sys);
      var trace :| IsRun(sys, trace) && trace[|trace| - 1] == s;
      assert s.ops[1].end < s.ops[2].start;
      assert !Le(s.ops[1].tag, s.ops[2].tag);
      assert !SeesFinished(trace[|trace| - 1]);
    }
  }

  lemma RunSees(sys: System, trace: seq<State>, n: nat)
    requires IsRun(sys, trace) && Intersecting(sys) && n < |trace|
    ensures SeesFinished(trace[n])
  {
    var s := trace[n];
    forall w, r | 0 <= w < |s.ops| && 0 <= r < |s.ops| && !s.ops[w].action.Get? && s.ops[w].phase.Done?
                  && s.ops[r].action.Get? && s.ops[r].phase.Done? && s.ops[w].end < s.ops[r].start
      ensures Le(s.ops[w].tag, s.ops[r].tag)
    {
      ReadsSeeAcknowledgedWrites(sys, trace, n, w, r);
    }
  }
}
