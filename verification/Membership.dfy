/**
  Gossip membership (src/cluster.cpp): higher generation wins, except that a node never takes
  another's word about itself.  Generations are 64-bit and their increment wraps.
 */
module Membership {
  import opened Options
  import opened Rings
  import opened Words

  datatype Status = Alive | Left

  datatype Member = Member(node: CacheNode, generation: nat, status: Status)

  /** One node's membership state; `published` is the ring the routing table was last built from. */
  datatype View = View(
    local: string, members: map<string, Member>, nodes: map<string, CacheNode>, ring: Ring, published: Ring)

  function Inc(generation: nat): nat {
    (generation + 1) % WORD
  }

  function Initial(at: Placement, local: CacheNode, boot: nat): View {
    var ring := AddNode(at, EmptyRing, local);
    View(local.id, map[local.id := Member(local, boot, Alive)], map[local.id := local], ring, ring)
  }

  /** Whether `m` tells this node something newer about m's id. */
  predicate IsNews(v: View, m: Member) {
    m.node.id !in v.members || v.members[m.node.id].generation < m.generation
  }

  function ApplyMember(at: Placement, v: View, m: Member): View {
    var id := m.node.id;
    if !IsNews(v, m) then v
    else if id == v.local && id in v.members then
      v.(members := v.members[id := v.members[id].(generation := Inc(m.generation))])
    else
      var w := v.(members := v.members[id := m]);
      if m.status.Alive? && id !in v.nodes then
        w.(nodes := v.nodes[id := m.node], ring := AddNode(at, v.ring, m.node))
      else if m.status.Left? && id in v.nodes then
        w.(nodes := v.nodes - {id}, ring := RemoveNode(at, v.ring, id))
      else w
  }

  /** Whether applying `m` changes the ring's nodes. */
  predicate Reshapes(v: View, m: Member) {
    IsNews(v, m) && !(m.node.id == v.local && m.node.id in v.members) && (m.status.Alive? <==> m.node.id !in v.nodes)
  }

  function ApplyAll(at: Placement, v: View, ms: seq<Member>): View
    decreases |ms|
  {
    if ms == [] then v else ApplyAll(at, ApplyMember(at, v, ms[0]), ms[1..])
  }

  predicate ReshapesAny(at: Placement, v: View, ms: seq<Member>)
    decreases |ms|
  {
    ms != [] && (Reshapes(v, ms[0]) || ReshapesAny(at, ApplyMember(at, v, ms[0]), ms[1..]))
  }

  function MergeGossip(at: Placement, v: View, ms: seq<Member>): View {
    var w := ApplyAll(at, v, ms);
    if ReshapesAny(at, v, ms) then w.(published := w.ring) else w
  }

  function Leave(at: Placement, v: View): View
    requires v.local in v.members
  {
    var self := v.members[v.local];
    var ring := RemoveNode(at, v.ring, v.local);
    v.(members := v.members[v.local := self.(generation := Inc(self.generation), status := Left)],
       nodes := v.nodes - {v.local}, ring := ring, published := ring)
  }

  // ---------- one node, every run ----------

  datatype Event = Gossip(ms: seq<Member>) | Depart

  function Step(at: Placement, v: View, e: Event): View
    requires v.local in v.members
  {
    match e
    case Gossip(ms) => MergeGossip(at, v, ms)
    case Depart => Leave(at, v)
  }

  /** Entries and nodes sit under their own ids, and the ring's members are the node map. */
  ghost predicate Keyed(v: View) {
    && v.local in v.members && v.ring.nodes == v.nodes
    && (forall id | id in v.members :: v.members[id].node.id == id)
    && (forall id | id in v.nodes :: v.nodes[id].id == id)
  }

  /** In the node map exactly when the entry says alive. */
  ghost predicate Matching(v: View) {
    forall id :: id in v.nodes <==> id in v.members && v.members[id].status.Alive?
  }

  ghost predicate Inv(at: Placement, v: View) {
    Keyed(v) && Matching(v)
  }

  lemma ApplyInv(at: Placement, v: View, m: Member)
    requires Inv(at, v)
    ensures Inv(at, ApplyMember(at, v, m)) && ApplyMember(at, v, m).local == v.local
    ensures !Reshapes(v, m) ==> ApplyMember(at, v, m).ring == v.ring
    ensures ApplyMember(at, v, m).published == v.published
  {
  }

  lemma {:induction false} ApplyAllInv(at: Placement, v: View, ms: seq<Member>)
    requires Inv(at, v)
    ensures var w := ApplyAll(at, v, ms);
      Inv(at, w) && w.local == v.local && w.published == v.published && (!ReshapesAny(at, v, ms) ==> w.ring == v.ring)
    decreases |ms|
  {
    if ms != [] {
      ApplyInv(at, v, ms[0]);
      ApplyAllInv(at, ApplyMember(at, v, ms[0]), ms[1..]);
    }
  }

  lemma StepInv(at: Placement, v: View, e: Event)
    requires Inv(at, v) && v.published == v.ring
    ensures var w := Step(at, v, e); Inv(at, w) && w.local == v.local && w.published == w.ring
  {
    if e.Gossip? {
      ApplyAllInv(at, v, e.ms);
    }
  }

  function Run(at: Placement, local: CacheNode, boot: nat, events: seq<Event>): (v: View)
    ensures v.local in v.members
    decreases |events|
  {
    if events == [] then Initial(at, local, boot)
    else
      var v := Run(at, local, boot, events[..|events| - 1]);
      StepKeepsIds(at, v, events[|events| - 1]);
      Step(at, v, events[|events| - 1])
  }

  lemma {:induction false} ApplyKeepsIds(at: Placement, v: View, ms: seq<Member>)
    ensures v.members.Keys <= ApplyAll(at, v, ms).members.Keys && ApplyAll(at, v, ms).local == v.local
    decreases |ms|
  {
    if ms != [] {
      ApplyKeepsIds(at, ApplyMember(at, v, ms[0]), ms[1..]);
    }
  }

  lemma StepKeepsIds(at: Placement, v: View, e: Event)
    requires v.local in v.members
    ensures v.members.Keys <= Step(at, v, e).members.Keys && Step(at, v, e).local == v.local
  {
    if e.Gossip? {
      ApplyKeepsIds(at, v, e.ms);
    }
  }

  /**
    Over every run of merges and leaves: an id is in the node map and in the ring exactly when its
    entry is Alive, and the published routing was built from the current ring.
   */
  lemma {:induction false} RingFollowsMembers(at: Placement, local: CacheNode, boot: nat, events: seq<Event>)
    ensures var v := Run(at, local, boot, events);
      && Inv(at, v) && v.local == local.id && v.published == v.ring
      && (forall id :: id in v.ring.nodes <==> id in v.members && v.members[id].status.Alive?)
    decreases |events|
  {
    if events != [] {
      RingFollowsMembers(at, local, boot, events[..|events| - 1]);
      StepInv(at, Run(at, local, boot, events[..|events| - 1]), events[|events| - 1]);
    }
  }

  // ---------- generations ----------

  /** A newer entry about this node itself carries the last generation there is. */
  predicate Wraps(v: View, m: Member) {
    && m.node.id == v.local && v.local in v.members
    && 0 < v.members[v.local].generation < m.generation == WORD - 1
  }

  ghost predicate NoOlder(v: View, w: View) {
    forall id | id in v.members :: id in w.members && v.members[id].generation <= w.members[id].generation
  }

  /** No generation goes down, exactly when the outranking increment does not wrap. */
  lemma GenerationsGrow(at: Placement, v: View, m: Member)
    requires m.generation < WORD
    ensures NoOlder(v, ApplyMember(at, v, m)) <==> !Wraps(v, m)
  {
    if Wraps(v, m) {
      assert ApplyMember(at, v, m).members[v.local].generation == 0;
    }
  }

  /** Leaving raises the node's own generation unless that was the last one. */
  lemma LeaveGrows(at: Placement, v: View)
    requires v.local in v.members && v.members[v.local].generation < WORD
    ensures NoOlder(v, Leave(at, v)) <==> v.members[v.local].generation < WORD - 1
  {
    if v.members[v.local].generation == WORD - 1 {
      assert Leave(at, v).members[v.local].generation == 0;
    }
  }

  /** Generations are 64-bit words. */
  ghost predicate InWords(v: View) {
    v.local in v.members && forall id | id in v.members :: v.members[id].generation < WORD
  }

  predicate HeardInWords(ms: seq<Member>) {
    forall i | 0 <= i < |ms| :: ms[i].generation < WORD
  }

  lemma {:induction false} ApplyAllSnoc(at: Placement, v: View, ms: seq<Member>, k: nat)
    requires k < |ms|
    ensures ApplyAll(at, v, ms[..k + 1]) == ApplyMember(at, ApplyAll(at, v, ms[..k]), ms[k])
    decreases k
  {
    assert ms[..k + 1][0] == ms[0];
    if k == 0 {
      assert ms[..1][1..] == [];
    } else {
      ApplyAllSnoc(at, ApplyMember(at, v, ms[0]), ms[1..], k - 1);
      assert ms[..k + 1][1..] == ms[1..][..k] && ms[..k][1..] == ms[1..][..k - 1];
    }
  }

  lemma {:induction false} ApplyAllInWords(at: Placement, v: View, ms: seq<Member>, k: nat)
    requires InWords(v) && HeardInWords(ms) && k <= |ms|
    ensures InWords(ApplyAll(at, v, ms[..k])) && ApplyAll(at, v, ms[..k]).local == v.local
    decreases k
  {
    if k > 0 {
      ApplyAllInWords(at, v, ms, k - 1);
      ApplyAllSnoc(at, v, ms, k - 1);
    }
  }

  lemma NoOlderTransitive(a: View, b: View, c: View)
    requires NoOlder(a, b) && NoOlder(b, c)
    ensures NoOlder(a, c)
  {
  }

  /** No increment of the event wraps: not the outranking of any entry heard, and not the one on leaving. */
  ghost predicate NoWrap(at: Placement, v: View, e: Event)
    requires v.local in v.members
  {
    match e
    case Gossip(ms) => forall k | 0 <= k < |ms| :: !Wraps(ApplyAll(at, v, ms[..k]), ms[k])
    case Depart => v.members[v.local].generation < WORD - 1
  }

  /** No generation goes down while the event is handled, entry by entry. */
  ghost predicate GrowsThrough(at: Placement, v: View, e: Event)
    requires v.local in v.members
  {
    match e
    case Gossip(ms) =>
      forall i, j | 0 <= i <= j <= |ms| :: NoOlder(ApplyAll(at, v, ms[..i]), ApplyAll(at, v, ms[..j]))
    case Depart => NoOlder(v, Leave(at, v))
  }

  lemma {:induction false} MergeGrows(at: Placement, v: View, ms: seq<Member>, i: nat, j: nat)
    requires InWords(v) && HeardInWords(ms) && i <= j <= |ms| && NoWrap(at, v, Gossip(ms))
    ensures NoOlder(ApplyAll(at, v, ms[..i]), ApplyAll(at, v, ms[..j]))
    decreases j
  {
    if i < j {
      MergeGrows(at, v, ms, i, j - 1);
      ApplyAllSnoc(at, v, ms, j - 1);
      GenerationsGrow(at, ApplyAll(at, v, ms[..j - 1]), ms[j - 1]);
      NoOlderTransitive(ApplyAll(at, v, ms[..i]), ApplyAll(at, v, ms[..j - 1]), ApplyAll(at, v, ms[..j]));
    }
  }

  lemma GrowsThroughExactly(at: Placement, v: View, e: Event)
    requires InWords(v) && (e.Gossip? ==> HeardInWords(e.ms))
    ensures GrowsThrough(at, v, e) <==> NoWrap(at, v, e)
  {
    match e
    case Depart => LeaveGrows(at, v);
    case Gossip(ms) =>
      if NoWrap(at, v, e) {
        forall i, j | 0 <= i <= j <= |ms| ensures NoOlder(ApplyAll(at, v, ms[..i]), ApplyAll(at, v, ms[..j])) {
          MergeGrows(at, v, ms, i, j);
        }
      } else {
        var k :| 0 <= k < |ms| && Wraps(ApplyAll(at, v, ms[..k]), ms[k]);
        ApplyAllSnoc(at, v, ms, k);
        GenerationsGrow(at, ApplyAll(at, v, ms[..k]), ms[k]);
        assert !NoOlder(ApplyAll(at, v, ms[..k]), ApplyAll(at, v, ms[..k + 1]));
      }
  }

  predicate EventsInWords(events: seq<Event>) {
    forall i | 0 <= i < |events| && events[i].Gossip? :: HeardInWords(events[i].ms)
  }

  lemma StepInWords(at: Placement, v: View, e: Event)
    requires InWords(v) && (e.Gossip? ==> HeardInWords(e.ms))
    ensures InWords(Step(at, v, e))
  {
    if e.Gossip? {
      assert e.ms[..|e.ms|] == e.ms;
      ApplyAllInWords(at, v, e.ms, |e.ms|);
    }
  }

  lemma {:induction false} RunInWords(at: Placement, local: CacheNode, boot: nat, events: seq<Event>)
    requires boot < WORD && EventsInWords(events)
    ensures InWords(Run(at, local, boot, events))
    decreases |events|
  {
    if events != [] {
      var n := |events| - 1;
      RunInWords(at, local, boot, events[..n]);
      StepInWords(at, Run(at, local, boot, events[..n]), events[n]);
    }
  }

  ghost predicate NeverWraps(at: Placement, local: CacheNode, boot: nat, events: seq<Event>) {
    forall k | 0 <= k < |events| :: NoWrap(at, Run(at, local, boot, events[..k]), events[k])
  }

  ghost predicate AlwaysGrows(at: Placement, local: CacheNode, boot: nat, events: seq<Event>) {
    forall k | 0 <= k < |events| :: GrowsThrough(at, Run(at, local, boot, events[..k]), events[k])
  }

  /** Over a whole run, entry by entry, no generation ever goes down if and only if no increment wraps. */
  lemma GenerationsGrowExactly(at: Placement, local: CacheNode, boot: nat, events: seq<Event>)
    requires boot < WORD && EventsInWords(events)
    ensures AlwaysGrows(at, local, boot, events) <==> NeverWraps(at, local, boot, events)
  {
    forall k | 0 <= k < |events|
      ensures GrowsThrough(at, Run(at, local, boot, events[..k]), events[k]) <==>
              NoWrap(at, Run(at, local, boot, events[..k]), events[k])
    {
      RunInWords(at, local, boot, events[..k]);
      GrowsThroughExactly(at, Run(at, local, boot, events[..k]), events[k]);
    }
  }

  lemma StepGrows(at: Placement, v: View, e: Event)
    requires InWords(v) && (e.Gossip? ==> HeardInWords(e.ms)) && NoWrap(at, v, e)
    ensures NoOlder(v, Step(at, v, e))
  {
    if e.Gossip? {
      assert e.ms[..|e.ms|] == e.ms && e.ms[..0] == [];
      MergeGrows(at, v, e.ms, 0, |e.ms|);
    } else {
      LeaveGrows(at, v);
    }
  }

  /** Over every run in which no increment wraps, no generation decreases and no member is forgotten. */
  lemma {:induction false} GenerationsNeverDecrease(at: Placement, local: CacheNode, boot: nat, events: seq<Event>,
                                                    i: nat)
    requires boot < WORD && EventsInWords(events) && NeverWraps(at, local, boot, events) && i <= |events|
    ensures NoOlder(Run(at, local, boot, events[..i]), Run(at, local, boot, events))
    decreases |events|
  {
    if i == |events| {
      assert events[..i] == events;
    } else {
      var n := |events| - 1;
      var front := events[..n];
      forall k | 0 <= k < n ensures NoWrap(at, Run(at, local, boot, front[..k]), front[k]) {
        assert front[..k] == events[..k];
      }
      GenerationsNeverDecrease(at, local, boot, front, i);
      assert front[..i] == events[..i];
      RunInWords(at, local, boot, front);
      StepGrows(at, Run(at, local, boot, front), events[n]);
      NoOlderTransitive(Run(at, local, boot, events[..i]), Run(at, local, boot, front), Run(at, local, boot, events));
    }
  }

  ghost predicate Below(v: View, others: nat, own: nat) {
    forall id | id in v.members :: v.members[id].generation <= if id == v.local then own else others
  }

  lemma {:induction false} ApplyAllBelow(at: Placement, v: View, ms: seq<Member>, limit: nat, own: nat)
    requires Below(v, limit, own) && limit < own && forall m | m in ms :: m.generation <= limit
    ensures Below(ApplyAll(at, v, ms), limit, own)
    decreases |ms|
  {
    if ms != [] {
      assert ms[0] in ms && forall m | m in ms[1..] :: m in ms;
      assert Inc(ms[0].generation) <= ms[0].generation + 1;
      ApplyAllBelow(at, ApplyMember(at, v, ms[0]), ms[1..], limit, own);
    }
  }

  ghost predicate GossipBelow(events: seq<Event>, limit: nat) {
    forall i | 0 <= i < |events| && events[i].Gossip? :: forall m | m in events[i].ms :: m.generation <= limit
  }

  lemma {:induction false} RunBelow(at: Placement, local: CacheNode, boot: nat, events: seq<Event>, limit: nat)
    requires GossipBelow(events, limit) && boot <= limit
    ensures Below(Run(at, local, boot, events), limit, limit + 1 + |events|)
    decreases |events|
  {
    if events != [] {
      var n := |events| - 1;
      var v := Run(at, local, boot, events[..n]);
      RunBelow(at, local, boot, events[..n], limit);
      if events[n].Gossip? {
        ApplyAllBelow(at, v, events[n].ms, limit, limit + 1 + n);
        ApplyKeepsIds(at, v, events[n].ms);
      } else {
        assert Inc(v.members[v.local].generation) <= v.members[v.local].generation + 1;
      }
    }
  }

  /** A run whose gossip and boot generations stay clear of the last ones never wraps. */
  lemma ClearRunNeverWraps(at: Placement, local: CacheNode, boot: nat, events: seq<Event>, limit: nat)
    requires GossipBelow(events, limit) && boot <= limit && limit + |events| + 1 < WORD
    ensures NeverWraps(at, local, boot, events)
  {
    forall k | 0 <= k < |events| ensures NoWrap(at, Run(at, local, boot, events[..k]), events[k]) {
      RunBelow(at, local, boot, events[..k], limit);
      if events[k].Gossip? {
        forall i | 0 <= i < |events[k].ms| ensures events[k].ms[i].generation <= limit {
          assert events[k].ms[i] in events[k].ms;
        }
      }
    }
  }

  // ---------- who may change what ----------

  /** Gossip never changes a node's own status or address, and leaving changes no other entry. */
  lemma OnlyOwnerChangesStatus(at: Placement, v: View, e: Event)
    requires Inv(at, v)
    ensures v.local in Step(at, v, e).members
    ensures e.Gossip? ==> Step(at, v, e).members[v.local].status == v.members[v.local].status
    ensures e.Gossip? ==> Step(at, v, e).members[v.local].node == v.members[v.local].node
    ensures e.Depart? ==> forall id | id in v.members && id != v.local :: Step(at, v, e).members[id] == v.members[id]
  {
    if e.Gossip? {
      ApplyAllOwn(at, v, e.ms);
    }
  }

  lemma {:induction false} ApplyAllOwn(at: Placement, v: View, ms: seq<Member>)
    requires Inv(at, v)
    ensures var w := ApplyAll(at, v, ms);
      v.local in w.members && w.members[v.local].(generation := 0) == v.members[v.local].(generation := 0)
    decreases |ms|
  {
    if ms != [] {
      ApplyInv(at, v, ms[0]);
      ApplyAllOwn(at, ApplyMember(at, v, ms[0]), ms[1..]);
    }
  }

  // ---------- order of merging ----------

  /** Entries for one id with one generation are the same entry. */
  ghost predicate Agreeing(known: set<Member>) {
    forall m, n | m in known && n in known && m.node.id == n.node.id && m.generation == n.generation :: m == n
  }

  function Entries(v: View): set<Member> {
    set id | id in v.members :: v.members[id]
  }

  /** The newest entry known for `id`, from before and from the list. */
  ghost predicate IsNewest(v: View, ms: seq<Member>, id: string, w: Option<Member>) {
    && (w.None? <==> id !in v.members && forall m | m in ms :: m.node.id != id)
    && (w.Some? ==> w.value.node.id == id && ((id in v.members && v.members[id] == w.value) || w.value in ms))
    && (w.Some? && id in v.members ==> v.members[id].generation <= w.value.generation)
    && (w.Some? ==> forall m | m in ms && m.node.id == id :: m.generation <= w.value.generation)
    && (w.Some? && id in v.members && v.members[id].generation == w.value.generation ==> w.value == v.members[id])
  }

  function Entry(v: View, id: string): Option<Member> {
    if id in v.members then Some(v.members[id]) else None
  }

  lemma EntryStep(at: Placement, v: View, m: Member, id: string)
    requires Inv(at, v) && id != v.local
    ensures Entry(ApplyMember(at, v, m), id) == if m.node.id == id && IsNews(v, m) then Some(m) else Entry(v, id)
  {
  }

  lemma NewestStep(v: View, u: View, m: Member, rest: seq<Member>, id: string, w: Option<Member>)
    requires IsNewest(u, rest, id, w) && (id in v.members ==> v.members[id].node.id == id)
    requires Entry(u, id) == if m.node.id == id && IsNews(v, m) then Some(m) else Entry(v, id)
    ensures IsNewest(v, [m] + rest, id, w)
  {
  }

  lemma {:induction false} ApplyAllNewest(at: Placement, v: View, ms: seq<Member>, id: string)
    requires Inv(at, v) && id != v.local
    ensures IsNewest(v, ms, id, Entry(ApplyAll(at, v, ms), id))
    decreases |ms|
  {
    if ms != [] {
      var u := ApplyMember(at, v, ms[0]);
      ApplyInv(at, v, ms[0]);
      EntryStep(at, v, ms[0], id);
      ApplyAllNewest(at, u, ms[1..], id);
      NewestStep(v, u, ms[0], ms[1..], id, Entry(ApplyAll(at, v, ms), id));
      assert ms == [ms[0]] + ms[1..];
    }
  }

  /** The newest word about `id` is news, and comes in two versions. */
  ghost predicate Contested(v: View, ms: seq<Member>, id: string) {
    exists m, n :: m in ms && n in ms && m != n && Newest(v, ms, id, m) && Newest(v, ms, id, n)
  }

  ghost predicate Newest(v: View, ms: seq<Member>, id: string, m: Member) {
    && m.node.id == id && (id in v.members ==> v.members[id].generation < m.generation)
    && forall other | other in ms && other.node.id == id :: other.generation <= m.generation
  }

  ghost predicate SameElements(ms: seq<Member>, ms': seq<Member>) {
    forall m :: m in ms <==> m in ms'
  }

  /** The entry of `id` comes out the same for every order of the list and any repetition in it. */
  ghost predicate OrderIrrelevant(at: Placement, v: View, ms: seq<Member>, id: string) {
    forall ms' | SameElements(ms, ms') :: Entry(ApplyAll(at, v, ms'), id) == Entry(ApplyAll(at, v, ms), id)
  }

  lemma NewestUnique(v: View, ms: seq<Member>, ms': seq<Member>, id: string, a: Option<Member>, b: Option<Member>)
    requires IsNewest(v, ms, id, a) && IsNewest(v, ms', id, b) && SameElements(ms, ms')
    requires !Contested(v, ms, id)
    ensures a == b
  {
    if a.Some? && b.Some? && a != b {
      assert a.value.generation == b.value.generation;
      assert Newest(v, ms, id, a.value) && Newest(v, ms, id, b.value);
    }
  }

  /** Of two equally new entries the first one heard stays. */
  lemma FirstHeardStays(at: Placement, v: View, ms: seq<Member>, i: nat, id: string)
    requires Inv(at, v) && id != v.local && i < |ms| && Newest(v, ms, id, ms[i])
    ensures SameElements(ms, Front(ms, i)) && Entry(ApplyAll(at, v, Front(ms, i)), id) == Some(ms[i])
  {
    assert ms == ms[..i] + [ms[i]] + ms[i + 1..];
    var rest := ms[..i] + ms[i + 1..];
    assert Front(ms, i)[1..] == rest;
    var u := ApplyMember(at, v, ms[i]);
    ApplyInv(at, v, ms[i]);
    EntryStep(at, v, ms[i], id);
    ApplyAllNewest(at, u, rest, id);
  }

  /**
    For every id but the node's own, the outcome of merging does not depend on order or repetition
    if and only if no two entries heard about it share the newest generation, above the known one.
   */
  lemma OrderExactly(at: Placement, v: View, ms: seq<Member>, id: string)
    requires Inv(at, v) && id != v.local
    ensures OrderIrrelevant(at, v, ms, id) <==> !Contested(v, ms, id)
  {
    if m, n :| m in ms && n in ms && m != n && Newest(v, ms, id, m) && Newest(v, ms, id, n) {
      var i :| 0 <= i < |ms| && ms[i] == m;
      var j :| 0 <= j < |ms| && ms[j] == n;
      FirstHeardStays(at, v, ms, i, id);
      FirstHeardStays(at, v, ms, j, id);
    } else {
      forall ms' | SameElements(ms, ms') ensures Entry(ApplyAll(at, v, ms'), id) == Entry(ApplyAll(at, v, ms), id) {
        ApplyAllNewest(at, v, ms, id);
        ApplyAllNewest(at, v, ms', id);
        NewestUnique(v, ms, ms', id, Entry(ApplyAll(at, v, ms), id), Entry(ApplyAll(at, v, ms'), id));
      }
    }
  }

  /** In particular if entries of one generation agree, and then the ring agrees as well. */
  lemma MergeOrderIrrelevant(at: Placement, v: View, ms: seq<Member>, ms': seq<Member>, id: string)
    requires Inv(at, v) && id != v.local && SameElements(ms, ms')
    requires Agreeing(Entries(v) + set m | m in ms)
    ensures Entry(MergeGossip(at, v, ms), id) == Entry(MergeGossip(at, v, ms'), id)
    ensures id in MergeGossip(at, v, ms).ring.nodes <==> id in MergeGossip(at, v, ms').ring.nodes
  {
    OrderExactly(at, v, ms, id);
    ApplyAllInv(at, v, ms);
    ApplyAllInv(at, v, ms');
  }

  // ---------- a node's own generation ----------

  function OwnGeneration(v: View): nat {
    if v.local in v.members then v.members[v.local].generation else 0
  }

  ghost predicate Heard(ms: seq<Member>, id: string, generation: nat) {
    exists i :: 0 <= i < |ms| && ms[i].node.id == id && ms[i].generation == generation
  }

  /** No word in `ms` about `id` is newer than `top`. */
  ghost predicate UpTo(ms: seq<Member>, id: string, top: nat) {
    forall i | 0 <= i < |ms| && ms[i].node.id == id :: ms[i].generation <= top
  }

  lemma OwnStep(at: Placement, v: View, m: Member)
    requires Inv(at, v) && m.generation < WORD - 1
    ensures var u := ApplyMember(at, v, m);
      && Inv(at, u) && u.local == v.local
      && OwnGeneration(u) ==
           if m.node.id == v.local && OwnGeneration(v) < m.generation then m.generation + 1 else OwnGeneration(v)
  {
    ApplyInv(at, v, m);
    IncFacts(m.generation);
  }

  lemma OtherStep(at: Placement, v: View, m: Member)
    requires Inv(at, v) && m.node.id != v.local
    ensures var u := ApplyMember(at, v, m); Inv(at, u) && u.local == v.local && OwnGeneration(u) == OwnGeneration(v)
  {
    ApplyInv(at, v, m);
  }

  lemma TailHeard(ms: seq<Member>, id: string, g: nat)
    requires ms != []
    ensures Heard(ms, id, g) <==> (ms[0].node.id == id && ms[0].generation == g) || Heard(ms[1..], id, g)
  {
    if Heard(ms, id, g) && !(ms[0].node.id == id && ms[0].generation == g) {
      var i :| 0 <= i < |ms| && ms[i].node.id == id && ms[i].generation == g;
      assert ms[1..][i - 1] == ms[i];
    }
    if Heard(ms[1..], id, g) {
      var i :| 0 <= i < |ms| - 1 && ms[1..][i].node.id == id && ms[1..][i].generation == g;
      assert ms[i + 1] == ms[1..][i];
    }
  }

  lemma OneStep(at: Placement, v: View, ms: seq<Member>, top: nat)
    requires Inv(at, v) && ms != [] && UpTo(ms, v.local, top) && top < WORD - 1
    ensures var u, m := ApplyMember(at, v, ms[0]), ms[0];
      && Inv(at, u) && u.local == v.local && UpTo(ms[1..], v.local, top)
      && OwnGeneration(u) ==
           if m.node.id == v.local && OwnGeneration(v) < m.generation then m.generation + 1 else OwnGeneration(v)
  {
    if ms[0].node.id == v.local {
      OwnStep(at, v, ms[0]);
    } else {
      OtherStep(at, v, ms[0]);
    }
  }

  /** Having outranked everything it will hear, a node keeps its generation. */
  lemma {:induction false} OwnSettled(at: Placement, v: View, ms: seq<Member>, top: nat)
    requires Inv(at, v) && UpTo(ms, v.local, top) && top < WORD - 1 && OwnGeneration(v) >= top
    ensures OwnGeneration(ApplyAll(at, v, ms)) == OwnGeneration(v)
    decreases |ms|
  {
    if ms != [] {
      OneStep(at, v, ms, top);
      OwnSettled(at, ApplyMember(at, v, ms[0]), ms[1..], top);
    }
  }

  /** Without word of the generation just below the newest, the newest is outranked, whatever the order. */
  lemma {:induction false} OwnOutranks(at: Placement, v: View, ms: seq<Member>, top: nat)
    requires Inv(at, v) && UpTo(ms, v.local, top) && OwnGeneration(v) < top < WORD - 1 && Heard(ms, v.local, top)
    requires !(OwnGeneration(v) < top - 1 && Heard(ms, v.local, top - 1))
    ensures OwnGeneration(ApplyAll(at, v, ms)) == top + 1
    decreases |ms|
  {
    var u := ApplyMember(at, v, ms[0]);
    OneStep(at, v, ms, top);
    TailHeard(ms, v.local, top);
    TailHeard(ms, v.local, top - 1);
    if OwnGeneration(u) >= top {
      OwnSettled(at, u, ms[1..], top);
    } else {
      OwnOutranks(at, u, ms[1..], top);
    }
  }

  /** The same list with its i-th entry first. */
  function Front(ms: seq<Member>, i: nat): seq<Member>
    requires i < |ms|
  {
    [ms[i]] + (ms[..i] + ms[i + 1..])
  }

  lemma FrontFirst(at: Placement, v: View, ms: seq<Member>, i: nat, top: nat)
    requires Inv(at, v) && UpTo(ms, v.local, top) && top < WORD - 1 && i < |ms| && ms[i].node.id == v.local
    requires OwnGeneration(v) < ms[i].generation && top <= ms[i].generation + 1
    ensures multiset(Front(ms, i)) == multiset(ms)
    ensures OwnGeneration(ApplyAll(at, v, Front(ms, i))) == ms[i].generation + 1
  {
    assert ms == ms[..i] + [ms[i]] + ms[i + 1..];
    var rest := ms[..i] + ms[i + 1..];
    assert Front(ms, i)[1..] == rest;
    OwnStep(at, v, ms[i]);
    OwnSettled(at, ApplyMember(at, v, ms[i]), rest, top);
  }

  /** The own generation comes out the same for every order of the list. */
  ghost predicate OwnOrderIrrelevant(at: Placement, v: View, ms: seq<Member>) {
    forall ms' | multiset(ms') == multiset(ms) ::
      OwnGeneration(ApplyAll(at, v, ms')) == OwnGeneration(ApplyAll(at, v, ms))
  }

  lemma Reordered(ms: seq<Member>, ms': seq<Member>, id: string, top: nat)
    requires multiset(ms') == multiset(ms)
    ensures Heard(ms, id, top) ==> Heard(ms', id, top)
    ensures UpTo(ms, id, top) ==> UpTo(ms', id, top)
  {
    forall i | 0 <= i < |ms| ensures exists k :: 0 <= k < |ms'| && ms'[k] == ms[i] {
      assert ms[i] in multiset(ms');
    }
    forall k | 0 <= k < |ms'| ensures exists i :: 0 <= i < |ms| && ms[i] == ms'[k] {
      assert ms'[k] in multiset(ms);
    }
  }

  /**
    For a node's own id the order of merging matters exactly when it hears, besides the newest
    generation about itself, the one just below it, and both are above its own.
   */
  lemma OwnOrderExactly(at: Placement, v: View, ms: seq<Member>, top: nat)
    requires Inv(at, v) && UpTo(ms, v.local, top) && Heard(ms, v.local, top)
    requires OwnGeneration(v) < top < WORD - 1
    ensures OwnOrderIrrelevant(at, v, ms) <==> !(OwnGeneration(v) < top - 1 && Heard(ms, v.local, top - 1))
  {
    if OwnGeneration(v) < top - 1 && Heard(ms, v.local, top - 1) {
      var i :| 0 <= i < |ms| && ms[i].node.id == v.local && ms[i].generation == top;
      var j :| 0 <= j < |ms| && ms[j].node.id == v.local && ms[j].generation == top - 1;
      FrontFirst(at, v, ms, i, top);
      FrontFirst(at, v, ms, j, top);
    } else {
      forall ms' | multiset(ms') == multiset(ms)
        ensures OwnGeneration(ApplyAll(at, v, ms')) == OwnGeneration(ApplyAll(at, v, ms))
      {
        Reordered(ms, ms', v.local, top);
        Reordered(ms', ms, v.local, top - 1);
        OwnOutranks(at, v, ms, top);
        OwnOutranks(at, v, ms', top);
      }
    }
  }

  /** With no news about itself a node keeps its generation, in every order. */
  lemma OwnNoNews(at: Placement, v: View, ms: seq<Member>)
    requires Inv(at, v) && UpTo(ms, v.local, OwnGeneration(v)) && OwnGeneration(v) < WORD - 1
    ensures OwnOrderIrrelevant(at, v, ms)
  {
    forall ms' | multiset(ms') == multiset(ms)
      ensures OwnGeneration(ApplyAll(at, v, ms')) == OwnGeneration(ApplyAll(at, v, ms))
    {
      Reordered(ms, ms', v.local, OwnGeneration(v));
      OwnSettled(at, v, ms, OwnGeneration(v));
      OwnSettled(at, v, ms', OwnGeneration(v));
    }
  }

  lemma IncFacts(g: nat)
    requires g < WORD
    ensures Inc(g) == if g == WORD - 1 then 0 else g + 1
  {
  }

  lemma IncMoves(g: nat)
    ensures Inc(g) != g
  {
  }

  // ---------- push-pull ----------

  /** A list of exactly a view's entries, in any order. */
  ghost predicate IsDump(v: View, ms: seq<Member>) {
    forall m :: m in ms <==> m in Entries(v)
  }

  /** exchange_gossip: b merges a's entries and answers with its own, which a merges. */
  ghost predicate Exchange(at: Placement, a: View, b: View, push: seq<Member>, pull: seq<Member>, a': View, b': View) {
    && IsDump(a, push) && b' == MergeGossip(at, b, push)
    && IsDump(b', pull) && a' == MergeGossip(at, a, pull)
  }

  lemma {:induction false} ApplyAllOwnGeneration(at: Placement, v: View, ms: seq<Member>, m: Member)
    requires Inv(at, v) && forall n | n in ms && n.node.id == v.local :: n == m
    ensures var self := v.members[v.local];
      Entry(ApplyAll(at, v, ms), v.local) ==
        Some(if m in ms && m.node.id == v.local && self.generation < m.generation
             then self.(generation := Inc(m.generation)) else self)
    decreases |ms|
  {
    if ms != [] {
      ApplyInv(at, v, ms[0]);
      assert ms == [ms[0]] + ms[1..];
      assert ms[0] in ms;
      OwnEntryStep(at, v, ms[0]);
      ApplyAllOwnGeneration(at, ApplyMember(at, v, ms[0]), ms[1..], m);
    }
  }

  lemma OwnEntryStep(at: Placement, v: View, m: Member)
    requires Inv(at, v)
    ensures var v', self := ApplyMember(at, v, m), v.members[v.local];
      && v'.local == v.local
      && Entry(v', v.local) == Some(if m.node.id == v.local && self.generation < m.generation
                                    then self.(generation := Inc(m.generation)) else self)
  {
  }

  /** The entry of two that gossip keeps; the known one on a tie. */
  function Newer(known: Option<Member>, heard: Option<Member>): Option<Member> {
    if heard.Some? && (known.None? || known.value.generation < heard.value.generation) then heard else known
  }

  /** A node's own entry after hearing about itself. */
  function Outranked(self: Member, heard: Option<Member>): Option<Member> {
    if heard.Some? && self.generation < heard.value.generation
    then Some(self.(generation := Inc(heard.value.generation))) else Some(self)
  }

  /** What a node thinks of itself after merging another's entries. */
  lemma DumpOwn(at: Placement, v: View, from: View, ms: seq<Member>)
    requires Inv(at, v) && Inv(at, from) && IsDump(from, ms)
    ensures Entry(ApplyAll(at, v, ms), v.local) == Outranked(v.members[v.local], Entry(from, v.local))
  {
    var m := if v.local in from.members then from.members[v.local] else v.members[v.local];
    assert v.local in from.members ==> m in Entries(from);
    ApplyAllOwnGeneration(at, v, ms, m);
  }

  /** What a node thinks of another after merging a third view's entries. */
  lemma DumpOther(at: Placement, v: View, from: View, ms: seq<Member>, id: string)
    requires Inv(at, v) && Inv(at, from) && IsDump(from, ms) && id != v.local
    ensures Entry(ApplyAll(at, v, ms), id) == Newer(Entry(v, id), Entry(from, id))
  {
    if id in from.members {
      assert from.members[id] in ms by {
        assert from.members[id] in Entries(from);
      }
      assert forall m | m in ms && m.node.id == id :: m == from.members[id];
      ApplyAllFirst(at, v, ms, from.members[id]);
    } else {
      ApplyAllUntouched(at, v, ms, id);
    }
  }

  lemma {:induction false} ApplyAllUntouched(at: Placement, v: View, ms: seq<Member>, id: string)
    requires forall m | m in ms :: m.node.id != id
    ensures Entry(ApplyAll(at, v, ms), id) == Entry(v, id)
    decreases |ms|
  {
    if ms != [] {
      assert ms[0] in ms && forall m | m in ms[1..] :: m in ms;
      ApplyAllUntouched(at, ApplyMember(at, v, ms[0]), ms[1..], id);
    }
  }

  /** When the list has one entry for an id, it replaces what was known exactly when it is newer. */
  lemma {:induction false} ApplyAllFirst(at: Placement, v: View, ms: seq<Member>, m: Member)
    requires Inv(at, v) && m.node.id != v.local && m in ms
    requires forall n | n in ms && n.node.id == m.node.id :: n == m
    ensures Entry(ApplyAll(at, v, ms), m.node.id) == if IsNews(v, m) then Some(m) else Entry(v, m.node.id)
    decreases |ms|
  {
    var u := ApplyMember(at, v, ms[0]);
    ApplyInv(at, v, ms[0]);
    assert ms == [ms[0]] + ms[1..];
    if m in ms[1..] {
      ApplyAllFirst(at, u, ms[1..], m);
    } else {
      ApplyAllUntouched(at, u, ms[1..], m.node.id);
    }
  }

  /** What the exchange does to both ends' entries, without the rings. */
  lemma ExchangeEntries(at: Placement, a: View, b: View, push: seq<Member>, pull: seq<Member>, a': View, b': View,
                        id: string)
    requires Inv(at, a) && Inv(at, b) && Exchange(at, a, b, push, pull, a', b')
    ensures id != b.local ==> Entry(b', id) == Newer(Entry(b, id), Entry(a, id))
    ensures id != a.local ==> Entry(a', id) == Newer(Entry(a, id), Entry(b', id))
    ensures Entry(b', b.local) == Outranked(b.members[b.local], Entry(a, b.local))
    ensures Entry(a', a.local) == Outranked(a.members[a.local], Entry(b', a.local))
  {
    ApplyAllInv(at, b, push);
    if id != b.local {
      DumpOther(at, b, a, push, id);
    }
    if id != a.local {
      DumpOther(at, a, b', pull, id);
    }
    DumpOwn(at, b, a, push);
    DumpOwn(at, a, b', pull);
  }

  /** Two views hold different entries for an id under one generation. */
  predicate Tied(a: View, b: View, id: string) {
    && id in a.members && id in b.members
    && a.members[id].generation == b.members[id].generation && a.members[id] != b.members[id]
  }

  /** After a push-pull the two views agree about every third node they were not tied about ... */
  lemma ExchangeAgrees(at: Placement, a: View, b: View, push: seq<Member>, pull: seq<Member>, a': View, b': View,
                       id: string)
    requires Inv(at, a) && Inv(at, b) && Exchange(at, a, b, push, pull, a', b')
    requires id != a.local && id != b.local
    ensures Entry(a', id) == Entry(b', id) <==> !Tied(a, b, id)
  {
    ExchangeEntries(at, a, b, push, pull, a', b', id);
  }

  /** ... about the responder unless the initiator held the last generation about it ... */
  lemma ExchangeAgreesOnResponder(at: Placement, a: View, b: View, push: seq<Member>, pull: seq<Member>, a': View,
                                  b': View)
    requires Inv(at, a) && Inv(at, b) && Exchange(at, a, b, push, pull, a', b')
    requires a.local != b.local && (b.local in a.members ==> a.members[b.local].generation < WORD)
    ensures Entry(a', b.local) == Entry(b', b.local) <==>
            && !Tied(a, b, b.local)
            && !(b.local in a.members && b.members[b.local].generation < a.members[b.local].generation == WORD - 1)
  {
    ExchangeEntries(at, a, b, push, pull, a', b', b.local);
    if b.local in a.members {
      IncFacts(a.members[b.local].generation);
    }
  }

  /** ... and about the initiator exactly when the responder knew nothing newer about it. */
  lemma ExchangeAgreesOnInitiator(at: Placement, a: View, b: View, push: seq<Member>, pull: seq<Member>, a': View,
                                  b': View)
    requires Inv(at, a) && Inv(at, b) && Exchange(at, a, b, push, pull, a', b')
    requires a.local != b.local
    ensures Entry(a', a.local) == Entry(b', a.local) <==>
            && !Tied(a, b, a.local)
            && !(a.local in b.members && a.members[a.local].generation < b.members[a.local].generation)
  {
    ExchangeEntries(at, a, b, push, pull, a', b', a.local);
    if a.local in b.members {
      IncMoves(b.members[a.local].generation);
    }
  }

  // ---------- the whole cluster ----------

  /** Every node's view, and every entry that was ever put on the wire. */
  datatype Cluster = Cluster(views: map<string, View>, pool: set<Member>)

  datatype Move =
    | Send(from: string)
    | Deliver(to: string, ms: seq<Member>)
    | Go(who: string)

  /** A statically configured peer enters at generation 0. */
  predicate IsConfigured(m: Member) {
    m.generation == 0 && m.status.Alive?
  }

  ghost predicate Enabled(s: Cluster, move: Move) {
    match move
    case Send(from) => from in s.views
    case Deliver(to, ms) => to in s.views && forall m | m in ms :: m in s.pool || IsConfigured(m)
    case Go(who) => who in s.views
  }

  ghost predicate Sane(at: Placement, s: Cluster) {
    forall id | id in s.views :: Inv(at, s.views[id]) && s.views[id].local == id
  }

  /** Messages may be delayed, lost, repeated and cut up. */
  ghost function Moved(at: Placement, s: Cluster, move: Move): Cluster
    requires Sane(at, s) && Enabled(s, move)
  {
    match move
    case Send(from) => s.(pool := s.pool + Entries(s.views[from]))
    case Deliver(to, ms) => s.(views := s.views[to := MergeGossip(at, s.views[to], ms)])
    case Go(who) => s.(views := s.views[who := Leave(at, s.views[who])])
  }

  ghost predicate CanMove(at: Placement, s: Cluster, s': Cluster) {
    Sane(at, s) && exists move :: Enabled(s, move) && s' == Moved(at, s, move)
  }

  /** The i-th state is followed by one that it can step to. */
  ghost predicate Follows(at: Placement, trace: seq<Cluster>, i: nat)
    requires i < |trace| - 1
  {
    CanMove(at, trace[i], trace[i + 1])
  }

  ghost predicate AllFollow(at: Placement, trace: seq<Cluster>) {
    forall i | 0 <= i < |trace| - 1 :: Follows(at, trace, i)
  }

  ghost predicate IsRun(at: Placement, trace: seq<Cluster>) {
    |trace| > 0 && Sane(at, trace[0]) && AllFollow(at, trace)
  }

  predicate Stays(s: Cluster, x: string) {
    x in s.views && x in s.views[x].members && s.views[x].members[x].status.Alive?
  }

  ghost predicate KnownAlive(v: View, x: string) {
    x in v.members ==> v.members[x].status.Alive?
  }

  /** Nobody holds, and nothing on the wire carries, word that x has left. */
  ghost predicate NoRumour(s: Cluster, x: string) {
    && (forall id | id in s.views :: KnownAlive(s.views[id], x))
    && forall m | m in s.pool && m.node.id == x :: m.status.Alive?
  }

  lemma {:induction false} ApplyAllKnownAlive(at: Placement, v: View, ms: seq<Member>, x: string)
    requires KnownAlive(v, x) && forall m | m in ms && m.node.id == x :: m.status.Alive?
    ensures KnownAlive(ApplyAll(at, v, ms), x)
    decreases |ms|
  {
    if ms != [] {
      assert ms[0] in ms && forall m | m in ms[1..] :: m in ms;
      ApplyAllKnownAlive(at, ApplyMember(at, v, ms[0]), ms[1..], x);
    }
  }

  lemma GossipInv(at: Placement, v: View, ms: seq<Member>)
    requires Inv(at, v)
    ensures Inv(at, MergeGossip(at, v, ms)) && MergeGossip(at, v, ms).local == v.local
  {
    ApplyAllInv(at, v, ms);
  }

  lemma LeaveInv(at: Placement, v: View)
    requires Inv(at, v)
    ensures Inv(at, Leave(at, v)) && Leave(at, v).local == v.local
  {
  }

  lemma OneViewSane(at: Placement, s: Cluster, id: string, v: View)
    requires Sane(at, s) && Inv(at, v) && v.local == id
    ensures Sane(at, s.(views := s.views[id := v]))
  {
  }

  lemma MovedSane(at: Placement, s: Cluster, move: Move)
    requires Sane(at, s) && Enabled(s, move)
    ensures Sane(at, Moved(at, s, move))
  {
    match move
    case Send(from) =>
    case Deliver(to, ms) =>
      GossipInv(at, s.views[to], ms);
      OneViewSane(at, s, to, MergeGossip(at, s.views[to], ms));
    case Go(who) =>
      LeaveInv(at, s.views[who]);
      OneViewSane(at, s, who, Leave(at, s.views[who]));
  }

  lemma MovedNoRumour(at: Placement, s: Cluster, move: Move, x: string)
    requires Sane(at, s) && Enabled(s, move) && NoRumour(s, x) && Stays(Moved(at, s, move), x)
    ensures NoRumour(Moved(at, s, move), x)
  {
    match move
    case Send(from) => assert KnownAlive(s.views[from], x);
    case Deliver(to, ms) => ApplyAllKnownAlive(at, s.views[to], ms, x);
    case Go(who) =>
  }

  /** Having left is final for the node itself. */
  lemma MovedStays(at: Placement, s: Cluster, move: Move, x: string)
    requires Sane(at, s) && Enabled(s, move) && Stays(Moved(at, s, move), x)
    ensures Stays(s, x)
  {
    match move
    case Send(from) =>
    case Deliver(to, ms) => ApplyAllOwn(at, s.views[to], ms);
    case Go(who) =>
  }

  lemma CanMoveStays(at: Placement, s: Cluster, s': Cluster, x: string)
    requires CanMove(at, s, s') && Stays(s', x)
    ensures Stays(s, x)
  {
    var move :| Enabled(s, move) && s' == Moved(at, s, move);
    MovedStays(at, s, move, x);
  }

  lemma CanMoveQuiet(at: Placement, s: Cluster, s': Cluster, x: string)
    requires CanMove(at, s, s') && NoRumour(s, x) && Stays(s', x)
    ensures Sane(at, s') && NoRumour(s', x)
  {
    var move :| Enabled(s, move) && s' == Moved(at, s, move);
    MovedSane(at, s, move);
    MovedNoRumour(at, s, move, x);
  }

  /** As long as x has not left itself, nobody says it has. */
  ghost predicate Quiet(at: Placement, s: Cluster, x: string) {
    Stays(s, x) ==> Sane(at, s) && NoRumour(s, x)
  }

  lemma QuietStep(at: Placement, trace: seq<Cluster>, n: nat, x: string)
    requires n + 1 < |trace| && Follows(at, trace, n) && Quiet(at, trace[n], x)
    ensures Quiet(at, trace[n + 1], x)
  {
    if Stays(trace[n + 1], x) {
      CanMoveStays(at, trace[n], trace[n + 1], x);
      CanMoveQuiet(at, trace[n], trace[n + 1], x);
    }
  }

  lemma {:induction false} StaysQuiet(at: Placement, trace: seq<Cluster>, n: nat, x: string)
    requires n < |trace| && AllFollow(at, trace) && Quiet(at, trace[0], x)
    ensures Quiet(at, trace[n], x)
  {
    if n > 0 {
      StaysQuiet(at, trace, n - 1, x);
      QuietStep(at, trace, n - 1, x);
    }
  }

  /**
    Over every run of the cluster that starts with no word of x having left: as long as x itself has
    not left, every node that knows x keeps it in its ring and in its routing's members.
   */
  lemma OnlyLeaversLeaveTheRing(at: Placement, trace: seq<Cluster>, n: nat, x: string, id: string)
    requires IsRun(at, trace) && n < |trace| && NoRumour(trace[0], x) && Stays(trace[n], x) && id in trace[n].views
    ensures x in trace[n].views[id].members ==> x in trace[n].views[id].ring.nodes
  {
    StaysQuiet(at, trace, n, x);
    assert KnownAlive(trace[n].views[id], x);
  }

  // ---------- as the source keeps it ----------

  class MembershipTable {
    const at: Placement
    const local: CacheNode
    var members: map<string, Member>
    var nodes: map<string, CacheNode>
    var ring: Ring
    var published: Ring

    ghost function Value(): View
      reads this
    {
      View(local.id, members, nodes, ring, published)
    }

    constructor (placement: Placement, self: CacheNode, boot: nat)
      ensures at == placement && local == self && Value() == Initial(at, self, boot) && Inv(at, Value())
    {
      at, local := placement, self;
      members, nodes := map[self.id := Member(self, boot, Alive)], map[self.id := self];
      var r := AddNode(placement, EmptyRing, self);
      ring, published := r, r;
    }

    method ApplyMemberLocked(m: Member) returns (changed: bool)
      modifies `members, `nodes, `ring
      ensures Value() == ApplyMember(at, old(Value()), m)
      ensures changed <==> Reshapes(old(Value()), m)
    {
      var id := m.node.id;
      if id in members && members[id].generation >= m.generation {
        return false;
      }
      if id == local.id && id in members {
        members := members[id := members[id].(generation := Inc(m.generation))];
        return false;
      }
      members := members[id := m];
      var inRing := id in nodes;
      if m.status == Alive && !inRing {
        nodes := nodes[id := m.node];
        ring := AddNode(at, ring, m.node);
        return true;
      }
      if m.status == Left && inRing {
        ring := RemoveNode(at, ring, id);
        nodes := nodes - {id};
        return true;
      }
      return false;
    }

    /** Merges a peer's entries, republishes the routing if the ring changed, answers with all entries. */
    method Merge(remote: seq<Member>) returns (view: seq<Member>)
      requires Inv(at, Value()) && published == ring
      modifies this
      ensures Value() == MergeGossip(at, old(Value()), remote)
      ensures Inv(at, Value()) && published == ring && IsDump(Value(), view)
    {
      var changed := false;
      ghost var v0 := Value();
      for i := 0 to |remote|
        invariant published == old(published)
        invariant ApplyAll(at, Value(), remote[i..]) == ApplyAll(at, v0, remote)
        invariant ReshapesAny(at, v0, remote) <==> changed || ReshapesAny(at, Value(), remote[i..])
      {
        assert remote[i..][1..] == remote[i + 1..];
        var c := ApplyMemberLocked(remote[i]);
        changed := c || changed;
      }
      StepInv(at, v0, Gossip(remote));
      if changed {
        published := ring;
      }
      view := Dump();
    }

    method Dump() returns (view: seq<Member>)
      ensures IsDump(Value(), view)
    {
      view := [];
      var left := members.Keys;
      while left != {}
        invariant left <= members.Keys
        invariant forall m :: m in view <==> exists id :: id in members.Keys - left && members[id] == m
        decreases |left|
      {
        var id :| id in left;
        view := view + [members[id]];
        left := left - {id};
      }
    }

    method Depart()
      requires Inv(at, Value()) && published == ring
      modifies this
      ensures Value() == Leave(at, old(Value())) && Inv(at, Value()) && published == ring
    {
      StepInv(at, Value(), Event.Depart);
      var self := members[local.id];
      members := members[local.id := self.(generation := Inc(self.generation), status := Left)];
      ring := RemoveNode(at, ring, local.id);
      nodes := nodes - {local.id};
      published := ring;
    }
  }
}
