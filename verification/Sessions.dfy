/**
  Client sessions (network/session.cpp): a stream of request bytes, cut into arbitrary reads, is
  answered exactly as if the pieces were processed one after another, and, while no inline line
  exceeds the limit, as if the stream were processed in one go.  SessionSplits says when the cuts
  matter.
 */
module Sessions {
  import opened Options
  import opened Resp
  import opened Commands
  import Replies

  const MAX_PENDING_OUTPUT := 1024 * 1024
  const READ_CHUNK := 16 * 1024  // the size of the buffer a session reads into

  /** What one read can deliver. */
  type Piece = s: string | |s| <= READ_CHUNK

  type Args = seq<string>

  /**
    The command handler as one connection sees it: the reply to the last request of a log of
    executed requests, and whether that request runs on the I/O thread.  Both may depend on
    everything executed before.
   */
  datatype Handler = Handler(reply: seq<Args> -> string, local: seq<Args> -> bool)

  predicate IsQuit(args: Args) {
    args != [] && ToUpper(args[0]) == "QUIT"
  }

  /** runs_locally: QUIT falls into the default branch. */
  predicate RunsLocally(h: Handler, log: seq<Args>) {
    log != [] && (IsQuit(log[|log| - 1]) || h.local(log))
  }

  // ---------- processing a stream ----------

  /** Requests executed, bytes replied, bytes consumed, and whether the connection is to be closed. */
  datatype Outcome = Outcome(executed: seq<Args>, output: string, consumed: nat, closing: bool)

  function Then(log: seq<Args>, out: string, used: nat, rest: Outcome): Outcome {
    Outcome(log + rest.executed, out + rest.output, used + rest.consumed, rest.closing)
  }

  function Consume(n: nat, o: Outcome): Outcome {
    o.(consumed := n + o.consumed)
  }

  /** What becomes of the stream `s`, there all at once, when `log` was executed before it. */
  function Sequential(h: Handler, log: seq<Args>, s: string): (o: Outcome)
    ensures o.consumed <= |s|
    decreases |s|
  {
    match ParseRequest(s)
    case Incomplete => Outcome([], "", 0, false)
    case Error(m) => Outcome([], Replies.Line('-', Message(m)), 0, true)
    case Ok(args, n) =>
      if args == [] then Consume(n, Sequential(h, log, s[n..]))
      else Consume(n, Execute(h, log, args, s[n..]))
  }

  function Execute(h: Handler, log: seq<Args>, args: Args, s: string): (o: Outcome)
    requires args != []
    ensures o.consumed <= |s|
    decreases |s| + 1
  {
    var reply := h.reply(log + [args]);
    if IsQuit(args) then Outcome([args], reply, 0, true)
    else Then([args], reply, 0, Sequential(h, log + [args], s))
  }

  function Concat(chunks: seq<string>): string {
    if chunks == [] then "" else chunks[0] + Concat(chunks[1..])
  }

  /** With `buf` at hand and `more` still to come: each piece joins what the ones before left over. */
  function Resume(h: Handler, log: seq<Args>, buf: string, more: seq<string>): Outcome
    decreases |more|
  {
    var o := Sequential(h, log, buf);
    if o.closing || more == [] then o
    else Then(o.executed, o.output, o.consumed, Resume(h, log + o.executed, buf[o.consumed..] + more[0], more[1..]))
  }

  /** What becomes of a stream that arrives in pieces. */
  function Arrived(h: Handler, chunks: seq<string>): Outcome {
    Resume(h, [], "", chunks)
  }

  // ---------- when the pieces do not matter ----------

  /** An inline line is within the limit, or its end is not in sight. */
  predicate FirstLineFits(s: string) {
    s == "" || s[0] == '*' || FindChar(s, '\n', 0).None? || FindChar(s, '\n', 0).value <= MAX_INLINE
  }

  /** No finished inline line of the stream exceeds the limit (up to the end, an error or QUIT). */
  predicate LinesFit(s: string)
    decreases |s|
  {
    FirstLineFits(s) &&
    match ParseRequest(s)
    case Ok(args, n) => IsQuit(args) || LinesFit(s[n..])
    case _ => true
  }

  lemma FirstLineFitsPrefix(s: string, more: string)
    requires FirstLineFits(s + more)
    ensures FirstLineFits(s)
  {
    if s != "" {
      assert (s + more)[0] == s[0];
      if FindChar(s, '\n', 0).Some? {
        FindCharStable(s, more, '\n');
      }
    }
  }

  lemma ShortOfNewline(s: string, k: nat)
    requires k <= |s| && FindChar(s, '\n', 0).Some? && k <= FindChar(s, '\n', 0).value
    ensures FindChar(s[..k], '\n', 0).None?
  {
    assert forall i | 0 <= i < k :: s[..k][i] == s[i];
  }

  /** What a prefix of the stream already decides, the whole stream decides the same way. */
  lemma ParseDecided(s: string, more: string)
    requires FirstLineFits(s + more) && !ParseRequest(s).Incomplete?
    ensures ParseRequest(s + more) == ParseRequest(s)
    ensures ParseRequest(s).Ok? ==> (s + more)[ParseRequest(s).consumed..] == s[ParseRequest(s).consumed..] + more
  {
    assert (s + more)[0] == s[0];
    if s[0] == '*' || ParseRequest(s).Ok? {
      ParseRequestStable(s, more);
    }
  }

  /**
    For one request, exactly: every prefix that decides it decides it like the whole buffer if and
    only if it is not an inline line that ends beyond the limit.
   */
  lemma RequestSplitExactly(s: string)
    ensures (forall k | 0 <= k <= |s| && !ParseRequest(s[..k]).Incomplete? :: ParseRequest(s[..k]) == ParseRequest(s))
            <==> FirstLineFits(s)
  {
    if FirstLineFits(s) {
      forall k | 0 <= k <= |s| && !ParseRequest(s[..k]).Incomplete? ensures ParseRequest(s[..k]) == ParseRequest(s) {
        assert s[..k] + s[k..] == s;
        ParseDecided(s[..k], s[k..]);
      }
    } else {
      var eol := FindChar(s, '\n', 0).value;
      ShortOfNewline(s, eol);
      assert ParseRequest(s[..eol]) == Error(BigInline) && ParseRequest(s).Ok?;
    }
  }

  lemma {:induction false} LinesFitPrefix(s: string, more: string)
    requires LinesFit(s + more)
    ensures LinesFit(s)
    decreases |s|
  {
    FirstLineFitsPrefix(s, more);
    if ParseRequest(s).Ok? && !IsQuit(ParseRequest(s).value) {
      ParseDecided(s, more);
      LinesFitPrefix(s[ParseRequest(s).consumed..], more);
    }
  }

  /** Where the processing of `a` stopped, the processing of `a + b` goes on. */
  ghost predicate GoesOn(h: Handler, log: seq<Args>, a: string, b: string) {
    var o := Sequential(h, log, a);
    Continues(Sequential(h, log, a + b), o, Sequential(h, log + o.executed, a[o.consumed..] + b))
  }

  /** `whole` goes on with `q` where `o` stopped. */
  predicate Continues(whole: Outcome, o: Outcome, q: Outcome) {
    whole == if o.closing then o else Then(o.executed, o.output, o.consumed, q)
  }

  lemma ContinuesLater(whole: Outcome, o: Outcome, q: Outcome, args: Args, reply: string, n: nat)
    requires Continues(whole, o, q)
    ensures Continues(Consume(n, whole), Consume(n, o), q)
    ensures Continues(Consume(n, Then([args], reply, 0, whole)), Consume(n, Then([args], reply, 0, o)), q)
  {
    if !o.closing {
      ThenAssociative([args], reply, 0, o.executed, o.output, o.consumed, q);
    }
  }

  /** One request further. */
  function Around(h: Handler, log: seq<Args>, args: Args, n: nat, o: Outcome): Outcome {
    if args == [] then Consume(n, o) else Consume(n, Then([args], h.reply(log + [args]), 0, o))
  }

  function Logged(log: seq<Args>, args: Args): seq<Args> {
    if args == [] then log else log + [args]
  }

  lemma OneRequest(h: Handler, log: seq<Args>, s: string)
    requires ParseRequest(s).Ok? && !IsQuit(ParseRequest(s).value)
    ensures var args, n := ParseRequest(s).value, ParseRequest(s).consumed;
      Sequential(h, log, s) == Around(h, log, args, n, Sequential(h, Logged(log, args), s[n..]))
  {
  }

  lemma {:induction false} SequentialSplit(h: Handler, log: seq<Args>, a: string, b: string)
    requires LinesFit(a + b)
    ensures GoesOn(h, log, a, b)
    decreases |a|
  {
    match ParseRequest(a)
    case Incomplete =>
      var o := Sequential(h, log, a + b);
      assert log + [] == log && a[0..] == a && [] + o.executed == o.executed && "" + o.output == o.output;
    case Error(m) => ParseDecided(a, b);
    case Ok(args, n) =>
      ParseDecided(a, b);
      if !IsQuit(args) {
        SequentialSplit(h, Logged(log, args), a[n..], b);
        OneRequest(h, log, a);
        OneRequest(h, log, a + b);
        SplitAround((l, s) => Sequential(h, l, s), h, log, a, b, args, n);
      }
  }

  /** The step of SequentialSplit, for any way of processing a stream. */
  lemma SplitAround(f: (seq<Args>, string) -> Outcome, h: Handler, log: seq<Args>, a: string, b: string,
                    args: Args, n: nat)
    requires n <= |a| && f(Logged(log, args), a[n..]).consumed <= |a[n..]|
    requires var p := f(Logged(log, args), a[n..]);
      Continues(f(Logged(log, args), a[n..] + b), p, f(Logged(log, args) + p.executed, a[n..][p.consumed..] + b))
    requires f(log, a) == Around(h, log, args, n, f(Logged(log, args), a[n..]))
    requires f(log, a + b) == Around(h, log, args, n, f(Logged(log, args), a[n..] + b))
    ensures f(log, a).consumed <= |a|
    ensures Continues(f(log, a + b), f(log, a), f(log + f(log, a).executed, a[f(log, a).consumed..] + b))
  {
    var p := f(Logged(log, args), a[n..]);
    var q := f(Logged(log, args) + p.executed, a[n..][p.consumed..] + b);
    assert Logged(log, args) + p.executed == log + f(log, a).executed;
    assert a[n..][p.consumed..] == a[f(log, a).consumed..];
    ContinuesLater(f(Logged(log, args), a[n..] + b), p, q, args, h.reply(log + [args]), n);
  }

  lemma ThenAssociative(log: seq<Args>, out: string, used: nat, log2: seq<Args>, out2: string, used2: nat, o: Outcome)
    ensures Then(log, out, used, Then(log2, out2, used2, o)) == Then(log + log2, out + out2, used + used2, o)
  {
    assert log + (log2 + o.executed) == log + log2 + o.executed;
    assert out + (out2 + o.output) == out + out2 + o.output;
  }

  lemma FitsNext(a: string, b: string)
    requires LinesFit(a + b) && ParseRequest(a).Ok? && !IsQuit(ParseRequest(a).value)
    ensures LinesFit(a[ParseRequest(a).consumed..] + b)
  {
    ParseDecided(a, b);
  }

  /** What is left over fits as well. */
  lemma {:induction false} LeftoverFits(h: Handler, log: seq<Args>, a: string, b: string)
    requires LinesFit(a + b) && !Sequential(h, log, a).closing
    ensures LinesFit(a[Sequential(h, log, a).consumed..] + b)
    decreases |a|, 1
  {
    if ParseRequest(a).Ok? {
      FitsNext(a, b);
      OneRequest(h, log, a);
      LeftoverStep(h, log, a, b, ParseRequest(a).value, ParseRequest(a).consumed);
    } else {
      assert a[0..] == a;
    }
  }

  lemma LeftoverStep(h: Handler, log: seq<Args>, a: string, b: string, args: Args, n: nat)
    requires 0 < n <= |a| && LinesFit(a[n..] + b) && !Sequential(h, log, a).closing
    requires Sequential(h, log, a) == Around(h, log, args, n, Sequential(h, Logged(log, args), a[n..]))
    ensures LinesFit(a[Sequential(h, log, a).consumed..] + b)
    decreases |a|, 0
  {
    LeftoverFits(h, Logged(log, args), a[n..], b);
    assert a[n..][Sequential(h, Logged(log, args), a[n..]).consumed..] == a[Sequential(h, log, a).consumed..];
  }

  /** Within the line limit a stream in any pieces is processed like the whole stream at once. */
  lemma {:induction false} ResumeIsSequential(h: Handler, log: seq<Args>, buf: string, more: seq<string>)
    requires LinesFit(buf + Concat(more))
    ensures Resume(h, log, buf, more) == Sequential(h, log, buf + Concat(more))
    decreases |more|
  {
    var o := Sequential(h, log, buf);
    if more == [] {
      assert buf + "" == buf;
    } else {
      SequentialSplit(h, log, buf, Concat(more));
      if !o.closing {
        LeftoverFits(h, log, buf, Concat(more));
        var left := buf[o.consumed..];
        assert left + Concat(more) == left + more[0] + Concat(more[1..]);
        ResumeIsSequential(h, log + o.executed, left + more[0], more[1..]);
      }
    }
  }

  lemma ArrivedIsSequential(h: Handler, chunks: seq<string>)
    requires LinesFit(Concat(chunks))
    ensures Arrived(h, chunks) == Sequential(h, [], Concat(chunks))
  {
    assert "" + Concat(chunks) == Concat(chunks);
    ResumeIsSequential(h, [], "", chunks);
  }

  lemma NextPiece(h: Handler, log: seq<Args>, rest: string, chunk: string, more: seq<string>)
    requires ParseRequest(rest).Incomplete?
    ensures Resume(h, log, rest, [chunk] + more) == Resume(h, log, rest + chunk, more)
  {
    assert ([chunk] + more)[1..] == more && rest[0..] == rest && log + [] == log;
    var o := Resume(h, log, rest + chunk, more);
    assert [] + o.executed == o.executed && "" + o.output == o.output;
  }

  // ---------- what a session has done, against the pieces it read ----------

  /** `log`, `out` and `used` account for everything read except `rest`, whatever is read next. */
  ghost predicate Open(h: Handler, chunks: seq<string>, log: seq<Args>, out: string, used: nat, rest: string) {
    forall more :: Arrived(h, chunks + more) == Then(log, out, used, Resume(h, log, rest, more))
  }

  /** The same while `args` is being executed elsewhere. */
  ghost predicate Handed(h: Handler, chunks: seq<string>, log: seq<Args>, out: string, used: nat, args: Args,
                         rest: string) {
    var log', out' := log + [args], out + h.reply(log + [args]);
    if IsQuit(args) then Ended(h, chunks, log', out', used) else Open(h, chunks, log', out', used, rest)
  }

  /** Nothing more is processed. */
  ghost predicate Ended(h: Handler, chunks: seq<string>, log: seq<Args>, out: string, used: nat) {
    forall more :: Arrived(h, chunks + more) == Outcome(log, out, used, true)
  }

  lemma StartOpen(h: Handler)
    ensures Open(h, [], [], "", 0, "")
  {
    forall more: seq<string> ensures Arrived(h, [] + more) == Then([], "", 0, Resume(h, [], "", more)) {
      var o := Resume(h, [], "", more);
      assert [] + more == more && [] + o.executed == o.executed && "" + o.output == o.output;
    }
  }

  lemma ReceiveOpen(h: Handler, chunks: seq<string>, log: seq<Args>, out: string, used: nat, rest: string,
                    chunk: string)
    requires Open(h, chunks, log, out, used, rest) && ParseRequest(rest).Incomplete?
    ensures Open(h, chunks + [chunk], log, out, used, rest + chunk)
  {
    forall more
      ensures Arrived(h, chunks + [chunk] + more) == Then(log, out, used, Resume(h, log, rest + chunk, more))
    {
      assert chunks + [chunk] + more == chunks + ([chunk] + more);
      NextPiece(h, log, rest, chunk, more);
    }
  }

  /** One request further, whatever is read next. */
  lemma ResumeRequest(h: Handler, log: seq<Args>, rest: string, more: seq<string>)
    requires ParseRequest(rest).Ok? && !IsQuit(ParseRequest(rest).value)
    ensures var args, n := ParseRequest(rest).value, ParseRequest(rest).consumed;
      Resume(h, log, rest, more) == Around(h, log, args, n, Resume(h, Logged(log, args), rest[n..], more))
  {
    var args, n := ParseRequest(rest).value, ParseRequest(rest).consumed;
    OneRequest(h, log, rest);
    ResumeAround((l, b, m) => Resume(h, l, b, m), h, log, rest, more, args, n,
                 Sequential(h, Logged(log, args), rest[n..]));
  }

  lemma ResumeAround(f: (seq<Args>, string, seq<string>) -> Outcome, h: Handler, log: seq<Args>, rest: string,
                     more: seq<string>, args: Args, n: nat, p: Outcome)
    requires n + p.consumed <= |rest|
    requires f(Logged(log, args), rest[n..], more) ==
             if p.closing || more == [] then p
             else Then(p.executed, p.output, p.consumed,
                       f(Logged(log, args) + p.executed, rest[n..][p.consumed..] + more[0], more[1..]))
    requires var o := Around(h, log, args, n, p);
      f(log, rest, more) ==
        if o.closing || more == [] then o
        else Then(o.executed, o.output, o.consumed, f(log + o.executed, rest[o.consumed..] + more[0], more[1..]))
    ensures f(log, rest, more) == Around(h, log, args, n, f(Logged(log, args), rest[n..], more))
  {
    var o := Around(h, log, args, n, p);
    assert rest[n..][p.consumed..] == rest[o.consumed..];
    assert Logged(log, args) + p.executed == log + o.executed;
    if !p.closing && more != [] {
      var q := f(log + o.executed, rest[o.consumed..] + more[0], more[1..]);
      ContinuesLater(f(Logged(log, args), rest[n..], more), p, q, args, h.reply(log + [args]), n);
    }
  }

  lemma SkipEmpty(h: Handler, chunks: seq<string>, log: seq<Args>, out: string, used: nat, rest: string)
    requires Open(h, chunks, log, out, used, rest) && ParseRequest(rest).Ok? && ParseRequest(rest).value == []
    ensures Open(h, chunks, log, out, used + ParseRequest(rest).consumed, rest[ParseRequest(rest).consumed..])
  {
    forall more
      ensures var n := ParseRequest(rest).consumed;
        Arrived(h, chunks + more) == Then(log, out, used + n, Resume(h, log, rest[n..], more))
    {
      ResumeRequest(h, log, rest, more);
    }
  }

  lemma HandOver(h: Handler, chunks: seq<string>, log: seq<Args>, out: string, used: nat, rest: string)
    requires Open(h, chunks, log, out, used, rest) && ParseRequest(rest).Ok? && ParseRequest(rest).value != []
    ensures var n := ParseRequest(rest).consumed;
      Handed(h, chunks, log, out, used + n, ParseRequest(rest).value, rest[n..])
  {
    var args, n := ParseRequest(rest).value, ParseRequest(rest).consumed;
    var reply := h.reply(log + [args]);
    if IsQuit(args) {
      forall more ensures Arrived(h, chunks + more) == Outcome(log + [args], out + reply, used + n, true) {
        assert Execute(h, log, args, rest[n..]) == Outcome([args], reply, 0, true);
        assert Resume(h, log, rest, more) == Outcome([args], reply, n, true);
      }
    } else {
      forall more
        ensures Arrived(h, chunks + more) ==
                Then(log + [args], out + reply, used + n, Resume(h, log + [args], rest[n..], more))
      {
        ResumeRequest(h, log, rest, more);
        ThenAssociative(log, out, used + n, [args], reply, 0, Resume(h, log + [args], rest[n..], more));
      }
    }
  }

  lemma ErrorEnds(h: Handler, chunks: seq<string>, log: seq<Args>, out: string, used: nat, rest: string)
    requires Open(h, chunks, log, out, used, rest) && ParseRequest(rest).Error?
    ensures Ended(h, chunks, log, out + Replies.Line('-', Message(ParseRequest(rest).reason)), used)
  {
    var m := Replies.Line('-', Message(ParseRequest(rest).reason));
    forall more ensures Arrived(h, chunks + more) == Outcome(log, out + m, used, true) {
      assert Resume(h, log, rest, more) == Outcome([], m, 0, true);
      assert log + [] == log;
    }
  }

  // ---------- the session ----------

  /** An operation handed to Asio whose completion handler has not run yet. */
  datatype Async = Read | Write | Rpc(args: Args)

  class ClientSession {
    const handler: Handler
    var input: string
    var output: string
    var writing: string
    var closing: bool
    var awaitingRpc: bool
    var closed: bool
    var outstanding: seq<Async>
    var log: seq<Args>  // requests executed for this connection: what handler replies depend on
    // what the outside world has seen so far
    ghost var chunks: seq<Piece>
    ghost var used: nat
    ghost var sent: string
    ghost var failed: bool

    ghost predicate Valid()
      reads this
    {
      if closed then outstanding == [] && (failed || Ended(handler, chunks, log, sent, used))
      else
        && |outstanding| == 1 && !failed
        && match outstanding[0]
           case Read =>
             && !closing && !awaitingRpc && writing == output == "" && ParseRequest(input).Incomplete?
             && Open(handler, chunks, log, sent, used, input)
           case Write =>
             && !awaitingRpc && writing != "" && output == ""
             && if closing then Ended(handler, chunks, log, sent + writing, used)
                else Open(handler, chunks, log, sent + writing, used, input)
           case Rpc(args) =>
             && awaitingRpc && !closing && writing == "" && args != [] && !IsQuit(args)
             && Handed(handler, chunks, log, sent + output, used, args, input)
    }

    /** The session while one of its handlers runs: nothing outstanding, nothing being written. */
    ghost predicate Running()
      reads this
    {
      && !closed && !failed && outstanding == [] && !awaitingRpc && writing == ""
      && if closing then Ended(handler, chunks, log, sent + output, used)
         else Open(handler, chunks, log, sent + output, used, input)
    }

    constructor (h: Handler)
      ensures Valid() && handler == h && chunks == [] && sent == "" && log == []
      ensures !closed && !failed && outstanding == [Read]
    {
      handler := h;
      input, output, writing := "", "", "";
      closing, awaitingRpc, closed := false, false, false;
      chunks, used, sent, log, failed := [], 0, "", [], false;
      outstanding := [Read];  // start() calls do_read()
      new;
      StartOpen(h);
    }

    predicate HasRpc()
      reads this
    {
      |outstanding| == 1 && outstanding[0].Rpc?
    }

    predicate HasWrite()
      reads this
    {
      outstanding == [Write]
    }

    /** The parsing loop of process_input has consumed `offset` bytes of the buffer. */
    ghost predicate Working(offset: nat)
      reads this
    {
      && offset <= |input|
      && !closed && !failed && outstanding == [] && !awaitingRpc && writing == ""
      && if closing then Ended(handler, chunks, log, sent + output, used)
         else Open(handler, chunks, log, sent + output, used, input[offset..])
    }

    /** Every complete request in the buffer is executed; returns with one operation started. */
    method ProcessInput()
      requires Running()
      modifies this
      ensures Valid() && chunks == old(chunks) && sent == old(sent) && old(log) <= log && !failed
      ensures |input| <= |old(input)| && (HasRpc() ==> |input| < |old(input)|)
      ensures HasWrite() ==> closing || |input| < |old(input)| || old(output) != ""
    {
      var offset: nat := 0;
      var stuck, handedOver := false, false;
      assert input[offset..] == input;
      while !closing && !stuck && offset < |input| && |output| < MAX_PENDING_OUTPUT
        invariant Working(offset) && input == old(input)
        invariant chunks == old(chunks) && sent == old(sent) && old(log) <= log
        invariant stuck ==> !closing && ParseRequest(input[offset..]).Incomplete?
        invariant output == old(output) || closing || offset > 0
        decreases |input| - offset, if closing || stuck then 0 else 1
      {
        offset, stuck, handedOver := ProcessOne(offset);
        if handedOver {
          return;
        }
      }
      input := input[offset..];
      Flush();
    }

    /** One round of the loop. */
    method ProcessOne(offset: nat) returns (next: nat, stuck: bool, handedOver: bool)
      requires Working(offset) && !closing && offset < |input|
      modifies this
      ensures chunks == old(chunks) && sent == old(sent) && old(log) <= log && !failed
      ensures handedOver ==> Valid()
      ensures !handedOver ==> Working(next) && input == old(input)
      ensures !handedOver ==> offset < next || (next == offset && (closing || stuck))
      ensures !handedOver && stuck ==> !closing && ParseRequest(input[next..]).Incomplete?
      ensures handedOver ==> HasRpc() && |input| < |old(input)|
      ensures !handedOver ==> output == old(output) || closing || offset < next
    {
      ghost var rest := input[offset..];
      var status := ParseRequestLoop(input[offset..]);
      match status {
        case Incomplete =>
          return offset, true, false;
        case Error(m) =>
          ErrorEnds(handler, chunks, log, sent + output, used, rest);
          Refuse(m);
          return offset, false, false;
        case Ok(args, consumed) =>
          next := offset + consumed;
          assert rest[consumed..] == input[next..];
          if args == [] {
            SkipEmpty(handler, chunks, log, sent + output, used, rest);
            used := used + consumed;
            return next, false, false;
          }
          HandOver(handler, chunks, log, sent + output, used, rest);
          used := used + consumed;
          handedOver := Dispatch(args, next);
          stuck := false;
      }
    }

    method Refuse(m: ProtocolError)
      modifies `output, `closing
      ensures closing && sent + output == sent + old(output) + Replies.Line('-', Message(m))
    {
      ghost var before := output;
      output := output + Replies.Line('-', Message(m));
      closing := true;
      assert sent + output == sent + before + Replies.Line('-', Message(m));
    }

    /** One request: run it here, or hand it to the executor with the rest of the input buffered. */
    method Dispatch(args: Args, offset: nat) returns (handedOver: bool)
      requires !closing && !closed && !failed && outstanding == [] && !awaitingRpc && writing == ""
      requires args != [] && offset <= |input|
      requires Handed(handler, chunks, log, sent + output, used, args, input[offset..])
      modifies this
      ensures chunks == old(chunks) && sent == old(sent) && old(log) <= log && !failed
      ensures handedOver ==> Valid() && log == old(log) && outstanding == [Rpc(args)] && input == old(input)[offset..]
      ensures !handedOver ==> Working(offset) && input == old(input) && log == old(log) + [args]
    {
      if !RunsLocally(handler, log + [args]) {
        awaitingRpc := true;
        input := input[offset..];
        outstanding := outstanding + [Rpc(args)];
        return true;
      }
      Answer(args);
      if IsQuit(args) {
        closing := true;
      }
      return false;
    }

    /** The request is executed and its reply appended. */
    method Answer(args: Args)
      modifies `output, `log
      ensures log == old(log) + [args] && sent + output == sent + old(output) + handler.reply(log)
    {
      ghost var before := output;
      output := output + handler.reply(log + [args]);
      log := log + [args];
      assert sent + output == sent + before + handler.reply(log);
    }

    method Flush()
      requires Running() && (output == "" && !closing ==> ParseRequest(input).Incomplete?)
      modifies this
      ensures Valid() && chunks == old(chunks) && sent == old(sent) && log == old(log) && !failed
      ensures input == old(input) && closing == old(closing) && !HasRpc() && (HasWrite() ==> old(output) != "")
    {
      if output == "" {
        assert sent + output == sent;
        if closing {
          closed := true;
        } else {
          outstanding := outstanding + [Read];
        }
        return;
      }
      writing, output := output, "";
      outstanding := outstanding + [Write];
    }

    method Close()
      requires outstanding == [] && !closed
      modifies this
      ensures Valid() && closed && failed && chunks == old(chunks) && sent == old(sent) && log == old(log)
    {
      closed, failed := true, true;
    }

    // ---------- completion handlers ----------

    method OnRead(ok: bool, chunk: Piece)
      requires Valid() && !closed && outstanding == [Read]
      modifies this
      ensures Valid() && sent == old(sent)
      ensures ok ==> chunks == old(chunks) + [chunk] && old(log) <= log && !failed
      ensures !ok ==> closed && log == old(log)
    {
      outstanding := [];
      if !ok {
        Close();
        return;
      }
      Receive(chunk);
      ProcessInput();
    }

    method Receive(chunk: Piece)
      requires !closed && !failed && outstanding == [] && !closing && !awaitingRpc && writing == output == ""
      requires Open(handler, chunks, log, sent, used, input) && ParseRequest(input).Incomplete?
      modifies `input, `chunks
      ensures Running() && chunks == old(chunks) + [chunk]
    {
      ReceiveOpen(handler, chunks, log, sent, used, input, chunk);
      input := input + chunk;
      chunks := chunks + [chunk];
      assert sent + output == sent;
    }

    method OnWrite(ok: bool)
      requires Valid() && !closed && outstanding == [Write]
      modifies this
      ensures Valid() && chunks == old(chunks)
      ensures ok ==> sent == old(sent) + old(writing) && old(log) <= log && !failed
      ensures ok ==> |input| <= |old(input)| && (HasRpc() ==> |input| < |old(input)|)
      ensures ok && HasWrite() ==> |input| < |old(input)| || (closing && !old(closing))
      ensures !ok ==> closed && sent == old(sent) && log == old(log)
    {
      outstanding := [];
      if !ok {
        Close();
        return;
      }
      sent := sent + writing;
      writing := "";
      assert sent + output == sent;
      if !closing && input != "" {
        ProcessInput();
      } else {
        Flush();
      }
    }

    /** The executor ran the request it was handed; its reply arrives on the session's thread. */
    method OnRpcDone()
      requires Valid() && !closed && |outstanding| == 1 && outstanding[0].Rpc?
      modifies this
      ensures Valid() && chunks == old(chunks) && sent == old(sent) && !failed
      ensures old(log) + [old(outstanding)[0].args] <= log
      ensures |input| <= |old(input)| && (HasRpc() ==> |input| < |old(input)|)
    {
      var args := outstanding[0].args;
      outstanding := [];
      Answer(args);
      awaitingRpc := false;
      ProcessInput();
    }

    /** How far the session is from waiting, for one input. */
    ghost function Rank(): nat
      reads this
    {
      if closed || outstanding == [Read] then 0 else if HasRpc() then 3 else if !closing then 2 else 1
    }

    /** Lets every started operation finish until the session waits for input or has closed. */
    method Settle()
      requires Valid() && !failed
      modifies this
      ensures Valid() && !failed && chunks == old(chunks) && (closed || outstanding == [Read])
    {
      while !closed && outstanding != [Read]
        invariant Valid() && !failed && chunks == old(chunks)
        decreases |input|, Rank()
      {
        if HasRpc() {
          OnRpcDone();
        } else {
          OnWrite(true);
        }
      }
    }

    /** Sends the pieces until they are gone or the session has closed; the rest is `left` unread. */
    method Feed(pieces: seq<Piece>) returns (ghost left: seq<Piece>)
      requires Valid() && !failed && outstanding == [Read] && !closed
      modifies this
      ensures Valid() && !failed && chunks + left == old(chunks) + pieces
      ensures closed || (outstanding == [Read] && left == [])
    {
      ghost var before := chunks;
      var i := 0;
      left := pieces;
      while i < |pieces| && !closed
        invariant 0 <= i <= |pieces| && left == pieces[i..] && chunks == before + pieces[..i]
        invariant Valid() && !failed && (closed || outstanding == [Read])
      {
        OnRead(true, pieces[i]);
        Settle();
        i := i + 1;
        left := left[1..];
      }
    }

    // ---------- what Valid means to the client ----------

    /**
      For every stream and every split: whenever the session waits for more input or has finished,
      what it executed, wrote and consumed is what processing the pieces one after another gives.
     */
    lemma QuiescentIsArrived()
      requires Valid() && !failed && (closed || outstanding == [Read])
      ensures Arrived(handler, chunks) == Outcome(log, sent, used, closed)
    {
      assert chunks + [] == chunks;
      if !closed {
        assert Resume(handler, log, input, []) == Outcome([], "", 0, false);
        assert log + [] == log && sent + "" == sent;
      }
    }

    /** A closed session makes nothing of further pieces. */
    lemma DoneIsArrived(rest: seq<string>)
      requires Valid() && !failed && (closed || (outstanding == [Read] && rest == []))
      ensures Arrived(handler, chunks + rest) == Outcome(log, sent, used, closed)
    {
      if !closed {
        assert chunks + [] == chunks;
        QuiescentIsArrived();
      }
    }

    /**
      Within the line limit that is processing the whole stream at once: each request was executed
      exactly once, in order, and exactly the replies were written.
     */
    lemma QuiescentIsSequential()
      requires Valid() && !failed && (closed || outstanding == [Read]) && LinesFit(Concat(chunks))
      ensures Sequential(handler, [], Concat(chunks)).executed == log
      ensures Sequential(handler, [], Concat(chunks)).output == sent
      ensures Sequential(handler, [], Concat(chunks)).closing == closed
    {
      QuiescentIsArrived();
      ArrivedIsSequential(handler, chunks);
    }

    /** At any time, what was executed and written is a prefix of that. */
    lemma AlwaysPrefix()
      requires Valid() && !failed
      ensures log <= Arrived(handler, chunks).executed && sent <= Arrived(handler, chunks).output
    {
      assert chunks + [] == chunks;
    }
  }

  /**
    A session that is sent `chunks` one after another, with every operation succeeding: it executes
    and answers what processing the pieces one after another gives, and then waits or has closed.
   */
  method Serve(h: Handler, chunks: seq<Piece>) returns (session: ClientSession)
    ensures fresh(session) && session.Valid() && session.handler == h
    ensures session.log == Arrived(h, chunks).executed && session.sent == Arrived(h, chunks).output
    ensures session.closed == Arrived(h, chunks).closing
  {
    session := new ClientSession(h);
    ghost var left := session.Feed(chunks);
    assert session.chunks + left == chunks;
    session.DoneIsArrived(left);
  }
}
