/**
  Quorum sizes and the way a read coordinator digests its replies
  (Cluster::effective_quorum, Cluster::can_serve_locally and the loops of Cluster::read).
 */
module Quorums {
  import opened Options
  import opened Versions

  type NodeId = string

  datatype Consistency = QuorumMode | LinearizableMode

  datatype Config = Config(replicationFactor: nat, readQuorum: nat, writeQuorum: nat, consistency: Consistency)

  function Wanted(c: Config, configured: nat): nat {
    if configured != 0 then configured else c.replicationFactor / 2 + 1
  }

  function Min(a: int, b: int): int { if a <= b then a else b }

  function Max(a: int, b: int): int { if a >= b then a else b }

  function EffectiveQuorum(c: Config, configured: nat, replicas: nat): nat {
    Max(1, Min(Wanted(c, configured), replicas))
  }

  /** Whether `node` can answer alone, given the key's owners. */
  predicate CanServeLocally(c: Config, owners: set<NodeId>, node: NodeId, isWrite: bool) {
    node in owners &&
    if isWrite || c.consistency.LinearizableMode? then |owners| == 1
    else EffectiveQuorum(c, c.readQuorum, |owners|) == 1
  }

  /**
    Clamping to a shorter preference list neither breaks nor creates intersection; the majority
    defaults therefore always intersect, and so do R=1, W=N.
   */
  lemma ClampedQuorums(c: Config, n: nat)
    requires n >= 1
    ensures EffectiveQuorum(c, c.readQuorum, n) + EffectiveQuorum(c, c.writeQuorum, n) > n
       <==> Wanted(c, c.readQuorum) + Wanted(c, c.writeQuorum) > n
    ensures c.readQuorum == c.writeQuorum == 0 && n <= c.replicationFactor ==>
              EffectiveQuorum(c, 0, n) + EffectiveQuorum(c, 0, n) > n
    ensures c.readQuorum == 1 && c.writeQuorum >= n ==>
              EffectiveQuorum(c, 1, n) == 1 && EffectiveQuorum(c, c.writeQuorum, n) == n
  {
  }

  lemma SubsetSize<T>(a: set<T>, b: set<T>)
    requires a <= b
    ensures |a| <= |b|
  {
    assert b == a + (b - a);
  }

  lemma QuorumsMeet<T>(all: set<T>, a: set<T>, b: set<T>) returns (x: T)
    requires a <= all && b <= all && |a| + |b| > |all|
    ensures x in a && x in b
  {
    if a * b == {} {
      SubsetSize(a + b, all);
      assert false;
    }
    x :| x in a * b;
  }

  // ---------- digesting the replies of a quorum ----------

  /** The largest entry among the replies. */
  ghost predicate IsWinner(replies: map<NodeId, Option<Tag>>, winner: Option<Tag>) {
    && (forall r | r in replies :: Le(replies[r], winner))
    && (winner.Some? ==> exists r :: r in replies && replies[r] == winner)
  }

  /** The nodes known to hold at least `t`. */
  function Holders(m: map<NodeId, Option<Tag>>, t: Option<Tag>): set<NodeId> {
    set r | r in m && Le(t, m[r])
  }

  function Holding(m: map<NodeId, Option<Tag>>, t: Option<Tag>): set<NodeId> {
    set r | r in m && m[r] == t
  }

  predicate Distinct<T(==)>(s: seq<T>) {
    forall i, j | 0 <= i < j < |s| :: s[i] != s[j]
  }

  /** The replies of `collect` by node: target i answered `values[i]` if `replied[i]`. */
  function ReplyMap(targets: seq<NodeId>, values: seq<Option<Tag>>, replied: seq<bool>): map<NodeId, Option<Tag>>
    requires |targets| == |values| == |replied|
    decreases |targets|
  {
    if targets == [] then map[]
    else
      var n := |targets| - 1;
      var m := ReplyMap(targets[..n], values[..n], replied[..n]);
      if replied[n] then m[targets[n] := values[n]] else m
  }

  lemma {:induction false} ReplyMapKeys(targets: seq<NodeId>, values: seq<Option<Tag>>, replied: seq<bool>)
    requires |targets| == |values| == |replied|
    ensures forall r | r in ReplyMap(targets, values, replied) :: r in targets
    decreases |targets|
  {
    if targets != [] {
      var n := |targets| - 1;
      ReplyMapKeys(targets[..n], values[..n], replied[..n]);
    }
  }

  /** ReplyMap of the first i targets. */
  function Upto(targets: seq<NodeId>, values: seq<Option<Tag>>, replied: seq<bool>, i: nat): map<NodeId, Option<Tag>>
    requires |targets| == |values| == |replied| && i <= |targets|
  {
    ReplyMap(targets[..i], values[..i], replied[..i])
  }

  lemma UptoNext(targets: seq<NodeId>, values: seq<Option<Tag>>, replied: seq<bool>, i: nat)
    requires |targets| == |values| == |replied| && i < |targets| && Distinct(targets)
    ensures targets[i] !in Upto(targets, values, replied, i)
    ensures Upto(targets, values, replied, i + 1) ==
            if replied[i] then Upto(targets, values, replied, i)[targets[i] := values[i]]
            else Upto(targets, values, replied, i)
  {
    ReplyMapKeys(targets[..i], values[..i], replied[..i]);
    assert targets[..i + 1][..i] == targets[..i];
    assert values[..i + 1][..i] == values[..i];
    assert replied[..i + 1][..i] == replied[..i];
  }

  /** First loop of Cluster::read: the newest reply. */
  method PickWinner(targets: seq<NodeId>, values: seq<Option<Tag>>, replied: seq<bool>) returns (winner: Option<Tag>)
    requires |targets| == |values| == |replied| && Distinct(targets)
    ensures IsWinner(ReplyMap(targets, values, replied), winner)
  {
    winner := None;
    var i := 0;
    while i < |targets|
      invariant 0 <= i <= |targets|
      invariant IsWinner(Upto(targets, values, replied, i), winner)
    {
      ghost var before := Upto(targets, values, replied, i);
      UptoNext(targets, values, replied, i);
      ghost var after := Upto(targets, values, replied, i + 1);
      if replied[i] && values[i].Some? && (winner.None? || Less(winner.value, values[i].value)) {
        forall r | r in before ensures Le(before[r], values[i]) {
          LeTransitive(before[r], winner, values[i]);
        }
        winner := values[i];
        assert after[targets[i]] == winner;
      } else {
        LeTotal(values[i], winner);
        if winner.Some? {
          ghost var r :| r in before && before[r] == winner;
          assert after[r] == winner;
        }
      }
      i := i + 1;
    }
    assert targets[..i] == targets && values[..i] == values && replied[..i] == replied;
  }

  /** Second loop of Cluster::read: how many replies equal the winner, and who must be repaired. */
  method CountUpToDate(targets: seq<NodeId>, values: seq<Option<Tag>>, replied: seq<bool>, winner: Tag)
    returns (upToDate: nat, stale: seq<NodeId>)
    requires |targets| == |values| == |replied| && Distinct(targets)
    ensures upToDate == |Holding(ReplyMap(targets, values, replied), Some(winner))|
    ensures forall r :: r in stale <==>
              r in ReplyMap(targets, values, replied) && ReplyMap(targets, values, replied)[r] != Some(winner)
  {
    upToDate, stale := 0, [];
    var i := 0;
    while i < |targets|
      invariant 0 <= i <= |targets|
      invariant upToDate == |Holding(Upto(targets, values, replied, i), Some(winner))|
      invariant forall r :: r in stale <==>
                  r in Upto(targets, values, replied, i) && Upto(targets, values, replied, i)[r] != Some(winner)
    {
      ghost var before := Holding(Upto(targets, values, replied, i), Some(winner));
      UptoNext(targets, values, replied, i);
      ghost var after := Holding(Upto(targets, values, replied, i + 1), Some(winner));
      if replied[i] {
        if values[i] == Some(winner) {
          assert after == before + {targets[i]};
          upToDate := upToDate + 1;
        } else {
          assert after == before;
          stale := stale + [targets[i]];
        }
      }
      i := i + 1;
    }
    assert targets[..i] == targets && values[..i] == values && replied[..i] == replied;
  }
}
