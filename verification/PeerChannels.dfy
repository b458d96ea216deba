/**
  The pipelined peer connection (network/peer_channel.cpp) under every order of its events.

  Each event is one handler running on the channel's strand.  A handler may run for any operation
  started earlier, including operations of connections that were reset since.  The handlers are
  functions on the channel's state; class PeerChannel below implements them in place.
 */
module PeerChannels {
  import opened Options
  import opened Resp
  import opened Replies

  datatype Status = ConnectionError | ProtocolError | Timeout

  datatype Result = Success(reply: RespValue) | Failure(status: Status)

  datatype ConnState = Disconnected | Connecting | Connected

  datatype Pending = Pending(id: nat, deadline: int)

  /** An operation handed to Asio, with the generation its handler captured. */
  datatype Handle = Resolve(gen: nat) | Connect(gen: nat) | Write(gen: nat) | Read(gen: nat)

  /**
    One callback invocation.  The call was request number `index` of connection `epoch`, whose
    requests were numbered from call `first` on; `inOrder` and `punctual` record whether, up to
    then, the peer had answered that connection's requests in order and no event had come later
    than the armed timer.
   */
  datatype Completion = Completion(
    id: nat, result: Result, at: int, deadline: int, epoch: nat, first: nat, index: nat, inOrder: bool, punctual: bool)

  /** What the peer answers to request number `index` of connection `epoch`, and its encoding. */
  datatype Answers = Answers(reply: (nat, nat) -> RespValue, bytes: (nat, nat) -> string)

  /** Requests lo..hi, concatenated. */
  function Concat(reqs: seq<string>, lo: nat, hi: nat): string
    requires lo <= hi <= |reqs|
  {
    if lo == hi then "" else Concat(reqs, lo, hi - 1) + reqs[hi - 1]
  }

  lemma {:induction false} ConcatPrefix(reqs: seq<string>, request: string, lo: nat, hi: nat)
    requires lo <= hi <= |reqs|
    ensures Concat(reqs + [request], lo, hi) == Concat(reqs, lo, hi)
  {
    if lo < hi {
      ConcatPrefix(reqs, request, lo, hi - 1);
    }
  }

  /** The peer's replies to requests lo..hi of a connection, as bytes. */
  function Stream(answer: Answers, epoch: nat, lo: nat, hi: nat): string
    requires lo <= hi
    decreases hi - lo
  {
    if lo == hi then "" else answer.bytes(epoch, lo) + Stream(answer, epoch, lo + 1, hi)
  }

  ghost predicate SpeaksResp(answer: Answers) {
    forall epoch, i {:trigger answer.reply(epoch, i)} ::
      Encodable(answer.reply(epoch, i)) && answer.bytes(epoch, i) == Encode(answer.reply(epoch, i))
  }

  lemma {:induction false} StreamSplits(answer: Answers, epoch: nat, lo: nat, mid: nat, hi: nat)
    requires lo <= mid <= hi
    ensures Stream(answer, epoch, lo, hi) == Stream(answer, epoch, lo, mid) + Stream(answer, epoch, mid, hi)
    decreases mid - lo
  {
    if lo < mid {
      StreamSplits(answer, epoch, lo + 1, mid, hi);
      var e := answer.bytes(epoch, lo);
      assert e + (Stream(answer, epoch, lo + 1, mid) + Stream(answer, epoch, mid, hi)) ==
             e + Stream(answer, epoch, lo + 1, mid) + Stream(answer, epoch, mid, hi);
    }
  }

  /** A received prefix of "reply v, then more" parses to v or is incomplete, never anything else. */
  lemma NextReply(rx: string, v: RespValue, rest: string)
    requires Encodable(v) && rx <= Encode(v) + rest
    ensures ParseReply(rx).Incomplete? || ParseReply(rx) == Ok(v, |Encode(v)|)
    ensures ParseReply(rx).Ok? ==> rx == Encode(v) + rx[|Encode(v)|..] && rx[|Encode(v)|..] <= rest
  {
    var e := Encode(v);
    if |rx| < |e| {
      assert rx == e[..|rx|];
      ReplyPrefixIncomplete(v, |rx|);
    } else {
      assert rx == e + rx[|e|..];
      ReplyRoundTrip(v, rx[|e|..]);
      assert (e + rest)[|e|..] == rest;
    }
  }

  /** The channel's fields, then the history the theorems speak about. */
  datatype Channel = Channel(
    state: ConnState, generation: nat, writing: bool, timerArmed: bool,
    queued: string, inWrite: string, rx: string, pending: seq<Pending>, calls: nat,
    timerDue: int, clock: int, punctual: bool,
    outstanding: set<Handle>,
    epoch: nat,              // connections reset so far
    first: nat,              // calls made before the last reset
    reqs: seq<string>,       // requests enqueued since the last reset
    written: nat,            // how many of them were handed to the socket
    inOrder: bool,
    completions: seq<Completion>)

  const Fresh := Channel(Disconnected, 0, false, false, "", "", "", [], 0, 0, 0, true, {}, 0, 0, [], 0, true, [])

  /** What stays fixed: the timer's constants and the peer. */
  datatype Params = Params(timeout: nat, answer: Answers)

  function Quarter(p: Params): nat { p.timeout / 4 }

  // ---------- the handlers ----------

  /** Time passes; it is punctual if the armed timer is not overrun. */
  function Tick(c: Channel, now: int): Channel {
    c.(clock := now, punctual := c.punctual && (c.timerArmed ==> now <= c.timerDue))
  }

  function Arm(p: Params, c: Channel): Channel {
    c.(timerArmed := true, timerDue := c.clock + Quarter(p))
  }

  function Flush(c: Channel): Channel {
    if c.writing || c.queued == "" || !c.state.Connected? then c
    else c.(writing := true, inWrite := c.queued, queued := "", written := |c.reqs|,
            outstanding := c.outstanding + {Write(c.generation)})
  }

  function BeginConnect(c: Channel): Channel {
    c.(state := Connecting, generation := c.generation + 1,
       outstanding := c.outstanding + {Resolve(c.generation + 1)})
  }

  function Queue(p: Params, c: Channel, request: string): Channel {
    c.(queued := c.queued + request,
       pending := c.pending + [Pending(c.calls, c.clock + p.timeout)],
       calls := c.calls + 1,
       reqs := c.reqs + [request])
  }

  function Enqueue(p: Params, c: Channel, request: string): Channel {
    var q := Queue(p, c, request);
    var t := if q.timerArmed then q else Arm(p, q);
    if t.state.Disconnected? then BeginConnect(t) else Flush(t)
  }

  function Failures(c: Channel, status: Status): seq<Completion> {
    seq(|c.pending|, i requires 0 <= i < |c.pending| =>
      Completion(c.pending[i].id, Failure(status), c.clock, c.pending[i].deadline, c.epoch, c.first,
                 0, false, c.punctual))
  }

  /** fail_all: the connection is reset and every waiting call fails. */
  function FailAll(c: Channel, status: Status): Channel {
    c.(state := Disconnected, generation := c.generation + 1, writing := false,
       queued := "", inWrite := "", rx := "", pending := [],
       epoch := c.epoch + 1, first := c.calls, reqs := [], written := 0, inOrder := true,
       completions := c.completions + Failures(c, status))
  }

  function Pop(c: Channel, reply: RespValue, used: nat): Channel
    requires c.pending != [] && used <= |c.rx| && |c.pending| <= |c.reqs|
  {
    var front := c.pending[0];
    c.(pending := c.pending[1..], rx := c.rx[used..],
       completions := c.completions +
         [Completion(front.id, Success(reply), c.clock, front.deadline, c.epoch, c.first,
                     |c.reqs| - |c.pending|, c.inOrder, c.punctual)])
  }

  /** The loop of the read handler, ending with the next read or with a reset. */
  function Drain(c: Channel): Channel
    requires |c.pending| <= |c.reqs|
    decreases |c.pending|
  {
    if c.pending == [] then c.(outstanding := c.outstanding + {Read(c.generation)})
    else
      match ParseReply(c.rx)
      case Incomplete => c.(outstanding := c.outstanding + {Read(c.generation)})
      case Error(_) => FailAll(c, ProtocolError)
      case Ok(reply, used) => Drain(Pop(c, reply, used))
  }

  /** The peer is in order while all it sent is a prefix of the replies to the requests so far. */
  function Receive(p: Params, c: Channel, chunk: string): Channel
    requires |c.pending| <= |c.reqs|
  {
    var rx := c.rx + chunk;
    c.(rx := rx, inOrder := c.inOrder && rx <= Stream(p.answer, c.epoch, |c.reqs| - |c.pending|, |c.reqs|))
  }

  datatype Event =
    | Call(request: string)
    | Close
    | Resolved(gen: nat, ok: bool)
    | Established(gen: nat, ok: bool)
    | Written(gen: nat, ok: bool)
    | Arrived(gen: nat, ok: bool, chunk: string)
    | TimerFired

  /** The operation whose handler an event is. */
  function HandleOf(e: Event): Option<Handle> {
    match e
    case Resolved(g, _) => Some(Resolve(g))
    case Established(g, _) => Some(Connect(g))
    case Written(g, _) => Some(Write(g))
    case Arrived(g, _, _) => Some(Read(g))
    case _ => None
  }

  predicate Enabled(c: Channel, e: Event, now: int) {
    && c.clock <= now && |c.pending| <= |c.reqs|
    && (HandleOf(e).Some? ==> HandleOf(e).value in c.outstanding)
    && (e.TimerFired? ==> c.timerArmed)
  }

  function Timer(p: Params, c: Channel): Channel {
    var off := c.(timerArmed := false);
    if c.pending == [] then off
    else if c.pending[0].deadline <= c.clock then FailAll(off, Timeout)
    else Arm(p, off)
  }

  /** A handler of the current connection, its operation already taken off the outstanding ones. */
  function Handler(p: Params, c: Channel, e: Event): Channel
    requires |c.pending| <= |c.reqs| && HandleOf(e).Some?
  {
    match e
    case Resolved(gen, ok) =>
      if !ok then FailAll(c, ConnectionError) else c.(outstanding := c.outstanding + {Connect(gen)})
    case Established(_, ok) =>
      if !ok then FailAll(c, ConnectionError)
      else Flush(c.(state := Connected, outstanding := c.outstanding + {Read(c.generation)}))
    case Written(_, ok) =>
      var w := c.(writing := false, inWrite := "");
      if !ok then FailAll(w, ConnectionError) else Flush(w)
    case Arrived(_, ok, chunk) =>
      if !ok then FailAll(c, ConnectionError) else Drain(Receive(p, c, chunk))
  }

  function Step(p: Params, c: Channel, e: Event, now: int): Channel
    requires Enabled(c, e, now)
  {
    var t := Tick(c, now);
    match e
    case Call(request) => Enqueue(p, t, request)
    case Close => FailAll(t, ConnectionError)
    case TimerFired => Timer(p, t)
    case _ =>
      var h := HandleOf(e).value;
      var u := t.(outstanding := t.outstanding - {h});
      if h.gen != t.generation then u else Handler(p, u, e)
  }

  ghost predicate CanStep(p: Params, c: Channel, c': Channel) {
    exists e, now :: Enabled(c, e, now) && c' == Step(p, c, e, now)
  }

  /** The i-th state is followed by one that it can step to. */
  ghost predicate Follows(p: Params, trace: seq<Channel>, i: nat)
    requires i < |trace| - 1
  {
    CanStep(p, trace[i], trace[i + 1])
  }

  ghost predicate IsRun(p: Params, trace: seq<Channel>) {
    && |trace| > 0 && trace[0] == Fresh && SpeaksResp(p.answer)
    && forall i | 0 <= i < |trace| - 1 :: Follows(p, trace, i)
  }

  // ---------- callbacks run first in, first out, each exactly once ----------

  ghost predicate Numbered(completions: seq<Completion>, pending: seq<Pending>, calls: nat) {
    && |completions| + |pending| == calls
    && (forall i | 0 <= i < |completions| :: completions[i].id == i)
    && (forall i | 0 <= i < |pending| :: pending[i].id == |completions| + i)
  }

  lemma FailuresNumbered(c: Channel, status: Status)
    requires Numbered(c.completions, c.pending, c.calls)
    ensures Numbered(c.completions + Failures(c, status), [], c.calls)
  {
  }

  // ---------- completions: own reply, in time ----------

  ghost predicate CompletionOk(p: Params, d: Completion) {
    && (d.result.Success? ==> d.id == d.first + d.index)
    && (d.inOrder && d.result.Success? ==> d.result.reply == p.answer.reply(d.epoch, d.index))
    && (d.punctual ==> d.at <= d.deadline + Quarter(p))
  }

  ghost predicate CompletionsOk(p: Params, completions: seq<Completion>) {
    forall i | 0 <= i < |completions| :: CompletionOk(p, completions[i])
  }

  ghost predicate InTime(p: Params, pending: seq<Pending>, clock: int) {
    forall i | 0 <= i < |pending| :: clock <= pending[i].deadline + Quarter(p)
  }

  lemma FailuresOk(p: Params, c: Channel, status: Status)
    requires CompletionsOk(p, c.completions) && (c.punctual ==> InTime(p, c.pending, c.clock))
    ensures CompletionsOk(p, c.completions + Failures(c, status))
  {
    var f := Failures(c, status);
    forall i | 0 <= i < |f| ensures CompletionOk(p, f[i]) {
    }
  }

  // ---------- the wire: requests and replies in step ----------

  /** What waits to be written is exactly the requests not yet handed to the socket. */
  ghost predicate QueueOk(reqs: seq<string>, written: nat, queued: string) {
    written <= |reqs| && queued == Concat(reqs, written, |reqs|)
  }

  /** Unparsed bytes are a prefix of the replies to the waiting requests, if the peer is orderly. */
  ghost predicate StreamOk(answer: Answers, epoch: nat, count: nat, waiting: nat, rx: string, inOrder: bool) {
    waiting <= count && (inOrder ==> rx <= Stream(answer, epoch, count - waiting, count))
  }

  lemma QueueGrows(reqs: seq<string>, written: nat, queued: string, request: string)
    requires QueueOk(reqs, written, queued)
    ensures QueueOk(reqs + [request], written, queued + request)
  {
    ConcatPrefix(reqs, request, written, |reqs|);
  }

  lemma StreamGrows(answer: Answers, epoch: nat, count: nat, waiting: nat, rx: string, inOrder: bool)
    requires StreamOk(answer, epoch, count, waiting, rx, inOrder)
    ensures StreamOk(answer, epoch, count + 1, waiting + 1, rx, inOrder)
  {
    StreamSplits(answer, epoch, count - waiting, count, count + 1);
  }

  /** The reply parsed from an orderly stream is the answer to the first waiting request. */
  lemma StreamMatched(answer: Answers, epoch: nat, count: nat, waiting: nat, rx: string, inOrder: bool)
    requires StreamOk(answer, epoch, count, waiting, rx, inOrder) && waiting > 0 && ParseReply(rx).Ok?
    requires SpeaksResp(answer)
    ensures StreamOk(answer, epoch, count, waiting - 1, rx[ParseReply(rx).consumed..], inOrder)
    ensures inOrder ==> ParseReply(rx).value == answer.reply(epoch, count - waiting)
  {
    if inOrder {
      var n := count - waiting;
      NextReply(rx, answer.reply(epoch, n), Stream(answer, epoch, n + 1, count));
    }
  }

  // ---------- the timer ----------

  predicate SortedDeadlines(pending: seq<Pending>) {
    |pending| <= 1 || (pending[0].deadline <= pending[1].deadline && SortedDeadlines(pending[1..]))
  }

  lemma {:induction false} FrontIsEarliest(pending: seq<Pending>, i: nat)
    requires SortedDeadlines(pending) && i < |pending|
    ensures pending[0].deadline <= pending[i].deadline
  {
    if i > 0 {
      FrontIsEarliest(pending[1..], i - 1);
    }
  }

  lemma {:induction false} AppendSorted(pending: seq<Pending>, last: Pending)
    requires SortedDeadlines(pending) && forall i | 0 <= i < |pending| :: pending[i].deadline <= last.deadline
    ensures SortedDeadlines(pending + [last])
  {
    if |pending| > 1 {
      AppendSorted(pending[1..], last);
      assert (pending + [last])[1..] == pending[1..] + [last];
    }
  }

  /** While a call waits the timer is armed, and for no later than its deadline plus a quarter. */
  ghost predicate TimerOk(p: Params, pending: seq<Pending>, armed: bool, due: int, clock: int, punctual: bool) {
    && (|pending| > 0 ==> armed)
    && (armed ==> due <= clock + Quarter(p))
    && (punctual && armed ==> clock <= due)
    && (forall i | 0 <= i < |pending| :: due <= pending[i].deadline + Quarter(p))
    && (forall i | 0 <= i < |pending| :: pending[i].deadline <= clock + p.timeout)
    && SortedDeadlines(pending)
  }

  lemma TimerInTime(p: Params, c: Channel)
    requires TimerOk(p, c.pending, c.timerArmed, c.timerDue, c.clock, c.punctual) && c.punctual
    ensures InTime(p, c.pending, c.clock)
  {
    forall i | 0 <= i < |c.pending| ensures c.clock <= c.pending[i].deadline + Quarter(p) {
    }
  }

  // ---------- the invariant, first without the outstanding operations ----------

  ghost predicate Inv(p: Params, c: Channel) {
    && Numbered(c.completions, c.pending, c.calls) && c.calls == c.first + |c.reqs|
    && CompletionsOk(p, c.completions)
    && QueueOk(c.reqs, c.written, c.queued)
    && StreamOk(p.answer, c.epoch, |c.reqs|, |c.pending|, c.rx, c.inOrder)
    && TimerOk(p, c.pending, c.timerArmed, c.timerDue, c.clock, c.punctual)
  }

  lemma TickInv(p: Params, c: Channel, now: int)
    requires Inv(p, c) && c.clock <= now
    ensures Inv(p, Tick(c, now))
  {
  }

  lemma FlushInv(p: Params, c: Channel)
    requires Inv(p, c)
    ensures Inv(p, Flush(c))
  {
  }

  lemma FailAllInv(p: Params, c: Channel, status: Status)
    requires Numbered(c.completions, c.pending, c.calls) && CompletionsOk(p, c.completions)
    requires c.punctual ==> InTime(p, c.pending, c.clock)
    requires TimerOk(p, [], c.timerArmed, c.timerDue, c.clock, c.punctual)
    ensures Inv(p, FailAll(c, status))
  {
    FailuresNumbered(c, status);
    FailuresOk(p, c, status);
  }

  lemma ResetInv(p: Params, c: Channel, status: Status)
    requires Inv(p, c)
    ensures Inv(p, FailAll(c, status))
  {
    if c.punctual {
      TimerInTime(p, c);
    }
    FailAllInv(p, c, status);
  }

  lemma QueueTimer(p: Params, c: Channel, last: Pending, due: int)
    requires TimerOk(p, c.pending, c.timerArmed, c.timerDue, c.clock, c.punctual)
    requires last.deadline == c.clock + p.timeout
    requires due == if c.timerArmed then c.timerDue else c.clock + Quarter(p)
    ensures TimerOk(p, c.pending + [last], true, due, c.clock, c.punctual)
  {
    AppendSorted(c.pending, last);
  }

  lemma QueueNumbered(completions: seq<Completion>, pending: seq<Pending>, calls: nat, last: Pending)
    requires Numbered(completions, pending, calls) && last.id == calls
    ensures Numbered(completions, pending + [last], calls + 1)
  {
  }

  lemma QueueInv(p: Params, c: Channel, request: string)
    requires Inv(p, c)
    ensures var q := Queue(p, c, request); Inv(p, if q.timerArmed then q else Arm(p, q))
  {
    var last := Pending(c.calls, c.clock + p.timeout);
    QueueNumbered(c.completions, c.pending, c.calls, last);
    QueueTimer(p, c, last, if c.timerArmed then c.timerDue else c.clock + Quarter(p));
    QueueGrows(c.reqs, c.written, c.queued, request);
    StreamGrows(p.answer, c.epoch, |c.reqs|, |c.pending|, c.rx, c.inOrder);
  }

  lemma EnqueueInv(p: Params, c: Channel, request: string)
    requires Inv(p, c)
    ensures Inv(p, Enqueue(p, c, request))
  {
    QueueInv(p, c, request);
    var q := Queue(p, c, request);
    FlushInv(p, if q.timerArmed then q else Arm(p, q));
  }

  lemma PopNumbered(completions: seq<Completion>, pending: seq<Pending>, calls: nat, d: Completion)
    requires Numbered(completions, pending, calls) && pending != [] && d.id == pending[0].id
    ensures Numbered(completions + [d], pending[1..], calls)
  {
  }

  lemma PopTimer(p: Params, pending: seq<Pending>, armed: bool, due: int, clock: int, punctual: bool)
    requires TimerOk(p, pending, armed, due, clock, punctual) && pending != []
    ensures TimerOk(p, pending[1..], armed, due, clock, punctual)
  {
  }

  lemma PopKeeps(p: Params, c: Channel, reply: RespValue, used: nat)
    requires Inv(p, c) && c.pending != [] && used <= |c.rx|
    requires StreamOk(p.answer, c.epoch, |c.reqs|, |c.pending| - 1, c.rx[used..], c.inOrder)
    requires CompletionOk(p, Pop(c, reply, used).completions[|c.completions|])
    ensures Inv(p, Pop(c, reply, used))
  {
    PopNumbered(c.completions, c.pending, c.calls, Pop(c, reply, used).completions[|c.completions|]);
    PopTimer(p, c.pending, c.timerArmed, c.timerDue, c.clock, c.punctual);
  }

  lemma PopMatched(p: Params, c: Channel)
    requires Inv(p, c) && SpeaksResp(p.answer) && c.pending != [] && ParseReply(c.rx).Ok?
    ensures var r := ParseReply(c.rx);
      && StreamOk(p.answer, c.epoch, |c.reqs|, |c.pending| - 1, c.rx[r.consumed..], c.inOrder)
      && CompletionOk(p, Pop(c, r.value, r.consumed).completions[|c.completions|])
  {
    if c.punctual {
      TimerInTime(p, c);
    }
    StreamMatched(p.answer, c.epoch, |c.reqs|, |c.pending|, c.rx, c.inOrder);
  }

  lemma PopInv(p: Params, c: Channel)
    requires Inv(p, c) && SpeaksResp(p.answer) && c.pending != [] && ParseReply(c.rx).Ok?
    ensures Inv(p, Pop(c, ParseReply(c.rx).value, ParseReply(c.rx).consumed))
  {
    PopMatched(p, c);
    PopKeeps(p, c, ParseReply(c.rx).value, ParseReply(c.rx).consumed);
  }

  lemma {:induction false} DrainInv(p: Params, c: Channel)
    requires Inv(p, c) && SpeaksResp(p.answer)
    ensures Inv(p, Drain(c))
    decreases |c.pending|
  {
    if c.pending != [] {
      match ParseReply(c.rx)
      case Incomplete =>
      case Error(_) => ResetInv(p, c, ProtocolError);
      case Ok(reply, used) =>
        PopInv(p, c);
        DrainInv(p, Pop(c, reply, used));
    }
  }

  lemma TimerInv(p: Params, c: Channel)
    requires Inv(p, c)
    ensures Inv(p, Timer(p, c))
  {
    var off := c.(timerArmed := false);
    if c.pending != [] {
      if c.punctual {
        TimerInTime(p, c);
      }
      if c.pending[0].deadline <= c.clock {
        FailAllInv(p, off, Timeout);
      } else {
        forall i | 0 <= i < |c.pending| ensures c.clock <= c.pending[i].deadline {
          FrontIsEarliest(c.pending, i);
        }
      }
    }
  }

  lemma HandlerInv(p: Params, c: Channel, e: Event)
    requires Inv(p, c) && SpeaksResp(p.answer) && HandleOf(e).Some?
    ensures Inv(p, Handler(p, c, e))
  {
    match e
    case Resolved(_, ok) => if !ok { ResetInv(p, c, ConnectionError); }
    case Established(_, ok) =>
      if !ok {
        ResetInv(p, c, ConnectionError);
      } else {
        FlushInv(p, c.(state := Connected, outstanding := c.outstanding + {Read(c.generation)}));
      }
    case Written(_, ok) =>
      var w := c.(writing := false, inWrite := "");
      assert Inv(p, w);
      ResetInv(p, w, ConnectionError);
      FlushInv(p, w);
    case Arrived(_, ok, chunk) =>
      if !ok {
        ResetInv(p, c, ConnectionError);
      } else {
        DrainInv(p, Receive(p, c, chunk));
      }
  }

  lemma StepInv(p: Params, c: Channel, e: Event, now: int)
    requires Inv(p, c) && SpeaksResp(p.answer) && Enabled(c, e, now)
    ensures Inv(p, Step(p, c, e, now))
  {
    var t := Tick(c, now);
    TickInv(p, c, now);
    match e
    case Call(request) => EnqueueInv(p, t, request);
    case Close => ResetInv(p, t, ConnectionError);
    case TimerFired => TimerInv(p, t);
    case _ =>
      var u := t.(outstanding := t.outstanding - {HandleOf(e).value});
      assert Inv(p, u);
      HandlerInv(p, u, e);
  }

  // ---------- the outstanding operations ----------

  /** Exactly the operations the channel believes to be running are running for this connection. */
  ghost predicate HandlesOk(outstanding: set<Handle>, generation: nat, state: ConnState, writing: bool) {
    && (forall h | h in outstanding :: h.gen <= generation)
    && (Resolve(generation) in outstanding || Connect(generation) in outstanding <==> state.Connecting?)
    && !(Resolve(generation) in outstanding && Connect(generation) in outstanding)
    && (Write(generation) in outstanding <==> writing)
    && (writing ==> state.Connected?)
    && (Read(generation) in outstanding <==> state.Connected?)
  }

  ghost predicate HandlesInv(c: Channel) {
    HandlesOk(c.outstanding, c.generation, c.state, c.writing)
  }

  lemma {:induction false} DrainHandles(c: Channel)
    requires HandlesOk(c.outstanding + {Read(c.generation)}, c.generation, c.state, c.writing)
    requires |c.pending| <= |c.reqs|
    ensures HandlesInv(Drain(c))
    decreases |c.pending|
  {
    assert forall h | h in c.outstanding :: h in c.outstanding + {Read(c.generation)};
    if c.pending != [] && ParseReply(c.rx).Ok? {
      DrainHandles(Pop(c, ParseReply(c.rx).value, ParseReply(c.rx).consumed));
    }
  }

  lemma FailHandles(c: Channel, status: Status)
    requires forall h | h in c.outstanding :: h.gen <= c.generation
    ensures HandlesInv(FailAll(c, status))
  {
  }

  lemma FlushHandles(c: Channel)
    requires HandlesInv(c)
    ensures HandlesInv(Flush(c))
  {
  }

  /** What the completion of an operation of this connection leaves running. */
  lemma HandleTaken(c: Channel, h: Handle)
    requires HandlesInv(c) && h in c.outstanding && h.gen == c.generation
    ensures var rest := c.outstanding - {h};
      match h
      case Resolve(_) => HandlesOk(rest + {Connect(c.generation)}, c.generation, c.state, c.writing)
      case Connect(_) => HandlesOk(rest + {Read(c.generation)}, c.generation, Connected, c.writing)
      case Write(_) => HandlesOk(rest, c.generation, c.state, false)
      case Read(_) => HandlesOk(rest + {Read(c.generation)}, c.generation, c.state, c.writing)
  {
  }

  lemma HandlerHandles(p: Params, c: Channel, e: Event)
    requires HandlesInv(c) && |c.pending| <= |c.reqs| && HandleOf(e).Some? && HandleOf(e).value in c.outstanding
    requires HandleOf(e).value.gen == c.generation
    ensures HandlesInv(Handler(p, c.(outstanding := c.outstanding - {HandleOf(e).value}), e))
  {
    var u := c.(outstanding := c.outstanding - {HandleOf(e).value});
    HandleTaken(c, HandleOf(e).value);
    FailHandles(u, ConnectionError);
    match e
    case Resolved(_, _) =>
    case Established(_, ok) =>
      if ok {
        FlushHandles(u.(state := Connected, outstanding := u.outstanding + {Read(u.generation)}));
      }
    case Written(_, ok) =>
      var w := u.(writing := false, inWrite := "");
      FailHandles(w, ConnectionError);
      FlushHandles(w);
    case Arrived(_, ok, chunk) =>
      if ok {
        DrainHandles(Receive(p, u, chunk));
      }
  }

  lemma EnqueueHandles(p: Params, c: Channel, request: string)
    requires HandlesInv(c)
    ensures HandlesInv(Enqueue(p, c, request))
  {
  }

  lemma StaleHandle(outstanding: set<Handle>, h: Handle, generation: nat, state: ConnState, writing: bool)
    requires HandlesOk(outstanding, generation, state, writing) && h.gen != generation
    ensures HandlesOk(outstanding - {h}, generation, state, writing)
  {
  }

  lemma StepHandles(p: Params, c: Channel, e: Event, now: int)
    requires HandlesInv(c) && Enabled(c, e, now)
    ensures HandlesInv(Step(p, c, e, now))
  {
    var t := Tick(c, now);
    match e
    case Call(request) => EnqueueHandles(p, t, request);
    case Close =>
    case TimerFired =>
    case _ =>
      if HandleOf(e).value.gen == c.generation {
        HandlerHandles(p, t, e);
      } else {
        StaleHandle(c.outstanding, HandleOf(e).value, c.generation, c.state, c.writing);
      }
  }

  // ---------- every run ----------

  ghost predicate Good(p: Params, c: Channel) {
    Inv(p, c) && HandlesInv(c)
  }

  lemma CanStepGood(p: Params, c: Channel, c': Channel)
    requires SpeaksResp(p.answer) && CanStep(p, c, c') && Good(p, c)
    ensures Good(p, c')
  {
    var e, now :| Enabled(c, e, now) && c' == Step(p, c, e, now);
    StepInv(p, c, e, now);
    StepHandles(p, c, e, now);
  }

  lemma {:induction false} RunInv(p: Params, trace: seq<Channel>, n: nat)
    requires IsRun(p, trace) && n < |trace|
    ensures Good(p, trace[n])
  {
    if n > 0 {
      RunInv(p, trace, n - 1);
      assert Follows(p, trace, n - 1);
      CanStepGood(p, trace[n - 1], trace[n]);
    }
  }

  /**
    Over every run: callbacks run exactly once and in call order; a successful one got the reply to
    its own request if the peer answered in order; none ran later than its deadline plus a quarter
    of the timeout, and none is still waiting beyond that, while timers are punctual.
   */
  lemma EveryCallIsAnswered(p: Params, trace: seq<Channel>, n: nat, i: nat)
    requires IsRun(p, trace) && n < |trace| && i < trace[n].calls
    ensures var c := trace[n];
      if i < |c.completions| then
        && c.completions[i].id == i && (forall j | 0 <= j < |c.completions| && j != i :: c.completions[j].id != i)
        && (forall j | 0 <= j < |c.pending| :: c.pending[j].id != i)
        && (c.completions[i].result.Success? ==> i == c.completions[i].first + c.completions[i].index)
        && (c.completions[i].inOrder && c.completions[i].result.Success? ==>
              c.completions[i].result.reply == p.answer.reply(c.completions[i].epoch, c.completions[i].index))
        && (c.completions[i].punctual ==> c.completions[i].at <= c.completions[i].deadline + p.timeout / 4)
      else
        && i - |c.completions| < |c.pending| && c.pending[i - |c.completions|].id == i
        && (c.punctual ==> c.clock <= c.pending[i - |c.completions|].deadline + p.timeout / 4)
  {
    RunInv(p, trace, n);
    var c := trace[n];
    if i < |c.completions| {
      assert CompletionOk(p, c.completions[i]);
    } else if c.punctual {
      TimerInTime(p, c);
    }
  }

  // ---------- the same handlers, in place ----------

  /** The callbacks run are those recorded, with the results recorded. */
  ghost predicate Records(ran: seq<(nat, Result)>, completions: seq<Completion>) {
    |ran| == |completions| && forall i | 0 <= i < |ran| :: ran[i] == (completions[i].id, completions[i].result)
  }

  class PeerChannel {
    const timeout: nat
    var state: ConnState
    var generation: nat
    var writing: bool
    var timerArmed: bool
    var timerDue: int
    var queued: string
    var inWrite: string
    var rx: string
    var pending: seq<Pending>
    var calls: nat                  // numbers the callbacks
    var outstanding: set<Handle>    // operations handed to Asio whose handlers have not run
    var ran: seq<(nat, Result)>     // callbacks run, with what each was given
    // what only the theorems speak about
    ghost const answer: Answers
    ghost var completions: seq<Completion>
    ghost var clock: int
    ghost var punctual: bool
    ghost var epoch: nat
    ghost var first: nat
    ghost var reqs: seq<string>
    ghost var written: nat
    ghost var inOrder: bool

    ghost predicate Valid()
      reads this
    {
      Records(ran, completions)
    }

    ghost function P(): Params {
      Params(timeout, answer)
    }

    /** The channel as a value. */
    ghost function Snapshot(): Channel
      reads this
    {
      Channel(state, generation, writing, timerArmed, queued, inWrite, rx, pending, calls, timerDue, clock, punctual,
              outstanding, epoch, first, reqs, written, inOrder, completions)
    }

    constructor (t: nat, ghost a: Answers)
      ensures Valid() && timeout == t && answer == a && Snapshot() == Fresh
    {
      timeout, answer := t, a;
      state, generation, writing, timerArmed, timerDue := Disconnected, 0, false, false, 0;
      queued, inWrite, rx, pending, calls := "", "", "", [], 0;
      outstanding, ran, completions := {}, [], [];
      clock, punctual, epoch, first, reqs, written, inOrder := 0, true, 0, 0, [], 0, true;
    }

    /** A handler starts running. */
    ghost method Begin(now: int)
      requires Valid()
      modifies `clock, `punctual
      ensures Valid() && Snapshot() == Tick(old(Snapshot()), now)
    {
      clock, punctual := now, punctual && (timerArmed ==> now <= timerDue);
    }

    /** The handler of an operation starts running. */
    method Enter(h: Handle, ghost now: int)
      requires Valid()
      modifies `clock, `punctual, `outstanding
      ensures Valid() && Snapshot() == Tick(old(Snapshot()), now).(outstanding := old(outstanding) - {h})
    {
      Begin(now);
      outstanding := outstanding - {h};
    }

    method DoArm(now: int)
      requires Valid() && clock == now
      modifies `timerArmed, `timerDue
      ensures Valid() && Snapshot() == Arm(P(), old(Snapshot()))
    {
      timerArmed := true;
      timerDue := now + timeout / 4;
    }

    method DoQueue(request: string, now: int)
      requires Valid() && clock == now
      modifies `queued, `pending, `calls, `reqs
      ensures Valid() && Snapshot() == Queue(P(), old(Snapshot()), request)
    {
      queued := queued + request;
      pending := pending + [Pending(calls, now + timeout)];
      calls := calls + 1;
      reqs := reqs + [request];
    }

    method DoEnqueue(request: string, now: int)
      requires Valid() && Enabled(Snapshot(), Call(request), now)
      modifies this
      ensures Valid() && Snapshot() == Step(P(), old(Snapshot()), Call(request), now)
    {
      Begin(now);
      DoQueue(request, now);
      if !timerArmed {
        DoArm(now);
      }
      if state.Disconnected? {
        DoConnect();
      } else if state.Connected? {
        DoFlush();
      }
    }

    method DoConnect()
      requires Valid()
      modifies `state, `generation, `outstanding
      ensures Valid() && Snapshot() == BeginConnect(old(Snapshot()))
    {
      state := Connecting;
      generation := generation + 1;
      outstanding := outstanding + {Resolve(generation)};
    }

    method DoFlush()
      requires Valid()
      modifies `writing, `inWrite, `queued, `outstanding, `written
      ensures Valid() && Snapshot() == Flush(old(Snapshot()))
    {
      if writing || queued == "" || !state.Connected? {
        return;
      }
      StartWrite();
    }

    method EndWrite()
      modifies `writing, `inWrite
      ensures Snapshot() == old(Snapshot()).(writing := false, inWrite := "")
    {
      writing := false;
      inWrite := "";
    }

    /** Everything queued goes into the write buffer. */
    method SwapBuffers()
      modifies `inWrite, `queued, `written
      ensures Snapshot() == old(Snapshot()).(inWrite := old(queued), queued := "", written := |reqs|)
    {
      inWrite, queued := queued, "";
      written := |reqs|;
    }

    method StartWrite()
      modifies `writing, `inWrite, `queued, `outstanding, `written
      ensures Snapshot() == old(Snapshot()).(writing := true, inWrite := old(queued), queued := "", written := |reqs|,
                                             outstanding := old(outstanding) + {Write(generation)})
    {
      SwapBuffers();
      writing := true;
      outstanding := outstanding + {Write(generation)};
    }

    /** One callback; what the theorems record about it is `c`. */
    method RunCallback(id: nat, result: Result, ghost c: Completion)
      requires Valid() && c.id == id && c.result == result
      modifies `ran, `completions
      ensures Valid() && completions == old(completions) + [c]
    {
      ran := ran + [(id, result)];
      completions := completions + [c];
    }

    method ResetConnection()
      modifies `state, `generation, `writing, `queued, `inWrite, `rx, `epoch, `first, `reqs, `written, `inOrder
      ensures state == Disconnected && generation == old(generation) + 1 && !writing && queued == inWrite == rx == ""
      ensures epoch == old(epoch) + 1 && first == calls && reqs == [] && written == 0 && inOrder
    {
      generation := generation + 1;
      state, writing := Disconnected, false;
      queued, inWrite, rx := "", "", "";
      epoch, first, reqs, written, inOrder := epoch + 1, calls, [], 0, true;
    }

    /** The connection is reset, and then every waiting call's callback runs. */
    method DoFailAll(status: Status)
      requires Valid()
      modifies this
      ensures Valid() && Snapshot() == FailAll(old(Snapshot()), status)
    {
      ghost var c := Snapshot();
      ResetConnection();
      var failed := pending;
      pending := [];
      FailEach(failed, status, c);
    }

    method FailEach(failed: seq<Pending>, status: Status, ghost c: Channel)
      requires Valid() && failed == c.pending
      modifies `ran, `completions
      ensures Valid() && completions == old(completions) + Failures(c, status)
    {
      for i := 0 to |failed|
        invariant Valid() && completions == old(completions) + Failures(c, status)[..i]
      {
        RunCallback(failed[i].id, Failure(status),
                    Completion(failed[i].id, Failure(status), c.clock, failed[i].deadline, c.epoch, c.first,
                               0, false, c.punctual));
        assert Failures(c, status)[..i + 1] == Failures(c, status)[..i] + [Failures(c, status)[i]];
      }
      assert Failures(c, status)[..|failed|] == Failures(c, status);
    }

    method DoTimer(now: int)
      requires Valid() && Enabled(Snapshot(), TimerFired, now)
      modifies this
      ensures Valid() && Snapshot() == Step(P(), old(Snapshot()), TimerFired, now)
    {
      Begin(now);
      timerArmed := false;
      if pending == [] {
        return;
      }
      if pending[0].deadline <= now {
        DoFailAll(Timeout);
        return;
      }
      DoArm(now);
    }

    method DoClose(now: int)
      requires Valid() && Enabled(Snapshot(), Close, now)
      modifies this
      ensures Valid() && Snapshot() == Step(P(), old(Snapshot()), Close, now)
    {
      Begin(now);
      DoFailAll(ConnectionError);
    }

    method OnConnected(gen: nat, ok: bool, now: int)
      requires Valid() && Enabled(Snapshot(), Established(gen, ok), now)
      modifies this
      ensures Valid() && Snapshot() == Step(P(), old(Snapshot()), Established(gen, ok), now)
    {
      Enter(Connect(gen), now);
      if gen != generation {
        return;
      }
      if !ok {
        DoFailAll(ConnectionError);
        return;
      }
      state := Connected;
      outstanding := outstanding + {Read(generation)};
      DoFlush();
    }

    method OnResolved(gen: nat, ok: bool, now: int)
      requires Valid() && Enabled(Snapshot(), Resolved(gen, ok), now)
      modifies this
      ensures Valid() && Snapshot() == Step(P(), old(Snapshot()), Resolved(gen, ok), now)
    {
      Enter(Resolve(gen), now);
      if gen != generation {
        return;
      }
      if !ok {
        DoFailAll(ConnectionError);
        return;
      }
      outstanding := outstanding + {Connect(gen)};
    }

    method OnWritten(gen: nat, ok: bool, now: int)
      requires Valid() && Enabled(Snapshot(), Written(gen, ok), now)
      modifies this
      ensures Valid() && Snapshot() == Step(P(), old(Snapshot()), Written(gen, ok), now)
    {
      Enter(Write(gen), now);
      if gen != generation {
        return;
      }
      EndWrite();
      if !ok {
        DoFailAll(ConnectionError);
        return;
      }
      DoFlush();
    }

    method OnRead(gen: nat, ok: bool, chunk: string, now: int)
      requires Valid() && Enabled(Snapshot(), Arrived(gen, ok, chunk), now)
      modifies this
      ensures Valid() && Snapshot() == Step(P(), old(Snapshot()), Arrived(gen, ok, chunk), now)
    {
      Enter(Read(gen), now);
      if gen != generation {
        return;
      }
      if !ok {
        DoFailAll(ConnectionError);
        return;
      }
      DoReceive(chunk);
      DoDrain();
    }

    method DoReceive(chunk: string)
      requires Valid() && |pending| <= |reqs|
      modifies `rx, `inOrder
      ensures Valid() && Snapshot() == Receive(P(), old(Snapshot()), chunk)
    {
      rx := rx + chunk;
      inOrder := inOrder && rx <= Stream(answer, epoch, |reqs| - |pending|, |reqs|);
    }

    /** The channel when only `rest` of the receive buffer is still to be parsed. */
    ghost function Ahead(rest: string): Channel
      reads this
    {
      Snapshot().(rx := rest)
    }

    /** One round of the reply loop: a callback, a reset, or nothing more to parse. */
    method TakeReply(rest: string) returns (next: string, stuck: bool, failed: bool)
      requires Valid() && pending != [] && |pending| <= |reqs|
      modifies this
      ensures Valid()
      ensures failed ==> Snapshot() == Drain(old(Ahead(rest)))
      ensures !failed ==> |pending| <= |reqs| && Drain(Ahead(next)) == Drain(old(Ahead(rest)))
      ensures !failed ==> if stuck then Stops(Ahead(next)) else |pending| < |old(pending)|
    {
      DrainOnce(Ahead(rest));
      var st := ParseReplyLoop(rest);
      match st {
        case Incomplete =>
          return rest, true, false;
        case Error(_) =>
          FailFrom(rest, ProtocolError);
          return rest, false, true;
        case Ok(reply, used) =>
          DoPop(reply, rest, used);
          return rest[used..], false, false;
      }
    }

    /** The reply loop; the buffer is trimmed once, after it. */
    method DoDrain()
      requires Valid() && |pending| <= |reqs|
      modifies this
      ensures Valid() && Snapshot() == Drain(old(Snapshot()))
    {
      ghost var target := Drain(Snapshot());
      var rest := rx;
      while pending != []
        invariant Valid() && |pending| <= |reqs|
        invariant Drain(Ahead(rest)) == target
        decreases |pending|
      {
        var stuck, failed;
        rest, stuck, failed := TakeReply(rest);
        if failed {
          return;
        }
        if stuck {
          break;
        }
      }
      DrainStops(Ahead(rest));
      ReadOn(rest);
    }

    method ReadOn(rest: string)
      modifies `rx, `outstanding
      ensures Snapshot() == old(Ahead(rest)).(outstanding := old(outstanding) + {Read(generation)})
    {
      rx := rest;
      outstanding := outstanding + {Read(generation)};
    }

    method FailFrom(ghost rest: string, status: Status)
      requires Valid()
      modifies this
      ensures Valid() && Snapshot() == FailAll(old(Ahead(rest)), status)
    {
      FailAhead(Snapshot(), status, rest);
      DoFailAll(status);
    }

    method DoPop(reply: RespValue, ghost rest: string, ghost used: nat)
      requires Valid() && pending != [] && |pending| <= |reqs| && used <= |rest|
      modifies `pending, `ran, `completions
      ensures Valid() && pending == old(pending)[1..]
      ensures Ahead(rest[used..]) == Pop(old(Ahead(rest)), reply, used)
    {
      var front := pending[0];
      RunCallback(front.id, Success(reply),
                  Completion(front.id, Success(reply), clock, front.deadline, epoch, first,
                             |reqs| - |pending|, inOrder, punctual));
      pending := pending[1..];
    }
  }

  /** A reset does not look at the receive buffer. */
  lemma FailAhead(c: Channel, status: Status, rest: string)
    ensures FailAll(c.(rx := rest), status) == FailAll(c, status)
  {
  }

  /** Nothing more to hand out until more is read. */
  predicate Stops(c: Channel) {
    c.pending == [] || ParseReply(c.rx).Incomplete?
  }

  lemma DrainStops(c: Channel)
    requires |c.pending| <= |c.reqs| && Stops(c)
    ensures Drain(c) == c.(outstanding := c.outstanding + {Read(c.generation)})
  {
  }

  lemma DrainOnce(c: Channel)
    requires c.pending != [] && |c.pending| <= |c.reqs|
    ensures ParseReply(c.rx).Incomplete? ==> Drain(c) == c.(outstanding := c.outstanding + {Read(c.generation)})
    ensures ParseReply(c.rx).Error? ==> Drain(c) == FailAll(c, ProtocolError)
    ensures ParseReply(c.rx).Ok? ==> Drain(c) == Drain(Pop(c, ParseReply(c.rx).value, ParseReply(c.rx).consumed))
  {
  }
}
