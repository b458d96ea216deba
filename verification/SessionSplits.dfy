/**
  When it matters how a client's bytes are cut into reads (network/session.cpp, protocol/resp.cpp).

  A read delivers at most READ_CHUNK bytes, and starts only when the request at hand is incomplete.
  An inline line is refused once more than MAX_INLINE bytes are there without its newline.  So a line
  of at most MAX_INLINE bytes is always accepted, one of MAX_INLINE + READ_CHUNK or more never, and
  one between depends on the cuts.
 */
module SessionSplits {
  import opened Options
  import opened Resp
  import opened Sessions
  import Replies

  ghost predicate Readable(chunks: seq<string>) {
    forall i | 0 <= i < |chunks| :: |chunks[i]| <= READ_CHUNK
  }

  /** The stream starts with a finished inline line beyond the limit. */
  predicate OverLong(s: string) {
    !FirstLineFits(s)
  }

  /** ... which some reads deliver together with its newline before it is refused. */
  predicate Disputed(s: string) {
    OverLong(s) && FindChar(s, '\n', 0).value < MAX_INLINE + READ_CHUNK
  }

  const Refused := Outcome([], Replies.Line('-', Message(BigInline)), 0, true)

  /** What the client and the store see: not how many bytes were looked at. */
  function Seen(o: Outcome): Outcome {
    o.(consumed := 0)
  }

  /** However it is cut, the stream is refused for a long line before anything is executed. */
  predicate AlwaysRefused(s: string)
    decreases |s|
  {
    match ParseRequest(s)
    case Incomplete => false
    case Error(m) => m == BigInline
    case Ok(args, n) => (OverLong(s) && !Disputed(s)) || (args == [] && AlwaysRefused(s[n..]))
  }

  /** No request reached starts with a disputed line, unless it is blank and followed by a refusal anyway. */
  predicate SplitsAgree(s: string)
    decreases |s|
  {
    match ParseRequest(s)
    case Ok(args, n) =>
      if Disputed(s) then args == [] && AlwaysRefused(s[n..])
      else OverLong(s) || IsQuit(args) || SplitsAgree(s[n..])
    case _ => true
  }

  /** The stream processed with the line limit enforced whether or not the newline is there. */
  function Strict(h: Handler, log: seq<Args>, s: string): Outcome
    decreases |s|
  {
    if OverLong(s) then Refused
    else
      match ParseRequest(s)
      case Incomplete => Outcome([], "", 0, false)
      case Error(m) => Outcome([], Replies.Line('-', Message(m)), 0, true)
      case Ok(args, n) =>
        if IsQuit(args) then Outcome([args], h.reply(log + [args]), n, true)
        else Around(h, log, args, n, Strict(h, Logged(log, args), s[n..]))
  }

  // ---------- where the cuts do not matter ----------

  lemma {:induction false} RefusedAgrees(h: Handler, log: seq<Args>, s: string)
    requires AlwaysRefused(s)
    ensures SplitsAgree(s) && Seen(Strict(h, log, s)) == Refused
    decreases |s|
  {
    if ParseRequest(s).Ok? && !OverLong(s) {
      RefusedAgrees(h, log, s[ParseRequest(s).consumed..]);
    }
  }

  /** More bytes change nothing about a finished request. */
  lemma DecidedOk(buf: string, rest: string)
    requires ParseRequest(buf).Ok?
    ensures ParseRequest(buf + rest) == ParseRequest(buf)
    ensures (buf + rest)[ParseRequest(buf).consumed..] == buf[ParseRequest(buf).consumed..] + rest
    ensures OverLong(buf + rest) == OverLong(buf) && Disputed(buf + rest) == Disputed(buf)
  {
    ParseRequestStable(buf, rest);
    assert (buf + rest)[0] == buf[0];
    if FindChar(buf, '\n', 0).Some? {
      FindCharStable(buf, rest, '\n');
    }
  }

  lemma DecidedError(buf: string, rest: string)
    requires ParseRequest(buf).Error?
    ensures OverLong(buf + rest) ==> ParseRequest(buf) == Error(BigInline)
    ensures !OverLong(buf + rest) ==> ParseRequest(buf + rest) == ParseRequest(buf)
  {
    assert (buf + rest)[0] == buf[0];
    if !OverLong(buf + rest) {
      ParseDecided(buf, rest);
    }
  }

  /** A read starts only when the request is incomplete, so the request ends in what it delivers ... */
  lemma EndsInChunk(left: string, chunk: string)
    requires ParseRequest(left).Incomplete? && ParseRequest(left + chunk).Ok?
    ensures ParseRequest(left + chunk).consumed > |left|
    ensures var n := ParseRequest(left + chunk).consumed; (left + chunk)[n..] == chunk[n - |left|..]
  {
    assert (left + chunk)[..|left|] == left;
    if ParseRequest(left + chunk).consumed <= |left| {
      RequestNeedsNoMore(left + chunk, |left|);
    }
  }

  /** ... and a line that is finished by it is not longer than the limit and one read. */
  lemma OnlyDisputed(left: string, chunk: string)
    requires ParseRequest(left).Incomplete? && |chunk| <= READ_CHUNK && OverLong(left + chunk)
    ensures Disputed(left + chunk)
  {
    if left != "" {
      assert (left + chunk)[0] == left[0];
    }
  }

  lemma AroundSeen(h: Handler, log: seq<Args>, args: Args, n: nat, a: Outcome, b: Outcome)
    ensures Seen(Around(h, log, args, n, a)) == Seen(Around(h, log, args, n, b)) <==> Seen(a) == Seen(b)
  {
    if args != [] {
      var reply := h.reply(log + [args]);
      assert ([args] + a.executed)[1..] == a.executed && ([args] + b.executed)[1..] == b.executed;
      assert (reply + a.output)[|reply|..] == a.output && (reply + b.output)[|reply|..] == b.output;
    }
  }

  lemma QuitEnds(h: Handler, log: seq<Args>, buf: string, more: seq<string>)
    requires ParseRequest(buf).Ok? && IsQuit(ParseRequest(buf).value)
    ensures var args, n := ParseRequest(buf).value, ParseRequest(buf).consumed;
      Resume(h, log, buf, more) == Outcome([args], h.reply(log + [args]), n, true)
  {
    var args, n := ParseRequest(buf).value, ParseRequest(buf).consumed;
    assert Execute(h, log, args, buf[n..]) == Outcome([args], h.reply(log + [args]), 0, true);
  }

  /** One finished request of the buffer. */
  lemma StrictStep(h: Handler, log: seq<Args>, buf: string, rest: string, more: seq<string>)
    requires ParseRequest(buf).Ok? && !IsQuit(ParseRequest(buf).value) && SplitsAgree(buf + rest)
    requires OverLong(buf) ==> Disputed(buf)
    ensures SplitsAgree(buf[ParseRequest(buf).consumed..] + rest)
    ensures var args, n := ParseRequest(buf).value, ParseRequest(buf).consumed;
      Seen(Resume(h, Logged(log, args), buf[n..], more)) == Seen(Strict(h, Logged(log, args), buf[n..] + rest)) ==>
      Seen(Resume(h, log, buf, more)) == Seen(Strict(h, log, buf + rest))
  {
    var args, n := ParseRequest(buf).value, ParseRequest(buf).consumed;
    DecidedOk(buf, rest);
    ResumeRequest(h, log, buf, more);
    var a, b := Resume(h, Logged(log, args), buf[n..], more), Strict(h, Logged(log, args), buf[n..] + rest);
    AroundSeen(h, log, args, n, a, b);
    if Disputed(buf) {
      RefusedAgrees(h, log, buf[n..] + rest);
    }
  }

  /** Where the cuts are not disputed, every run of reads does what strict processing does. */
  lemma {:induction false} ResumeIsStrict(h: Handler, log: seq<Args>, left: string, chunk: string, more: seq<string>)
    requires ParseRequest(left).Incomplete? && |chunk| <= READ_CHUNK && Readable(more)
    requires SplitsAgree(left + chunk + Concat(more))
    ensures Seen(Resume(h, log, left + chunk, more)) == Seen(Strict(h, log, left + chunk + Concat(more)))
    decreases |more|, |left| + |chunk|
  {
    var buf, rest := left + chunk, Concat(more);
    match ParseRequest(buf)
    case Incomplete =>
      if more == [] {
        assert buf + rest == buf;
      } else {
        assert buf + more[0] + Concat(more[1..]) == buf + rest;
        assert [more[0]] + more[1..] == more;
        NextPiece(h, log, buf, more[0], more[1..]);
        ResumeIsStrict(h, log, buf, more[0], more[1..]);
      }
    case Error(m) => DecidedError(buf, rest);
    case Ok(args, n) =>
      if OverLong(buf) {
        OnlyDisputed(left, chunk);
      }
      if IsQuit(args) {
        DecidedOk(buf, rest);
        QuitEnds(h, log, buf, more);
      } else {
        EndsInChunk(left, chunk);
        StrictStep(h, log, buf, rest, more);
        assert "" + buf[n..] == buf[n..];
        ResumeIsStrict(h, Logged(log, args), "", buf[n..], more);
      }
  }

  lemma ArrivedIsStrict(h: Handler, chunks: seq<string>)
    requires Readable(chunks) && SplitsAgree(Concat(chunks))
    ensures Seen(Arrived(h, chunks)) == Seen(Strict(h, [], Concat(chunks)))
  {
    assert "" + "" == "" && "" + Concat(chunks) == Concat(chunks);
    ResumeIsStrict(h, [], "", "", chunks);
  }

  /** A line longer than the limit and one read is refused in whatever pieces it arrives. */
  lemma LongLineRefused(h: Handler, chunks: seq<string>)
    requires Readable(chunks) && OverLong(Concat(chunks)) && !Disputed(Concat(chunks))
    ensures Seen(Arrived(h, chunks)) == Refused
  {
    ArrivedIsStrict(h, chunks);
  }

  // ---------- where they do ----------

  /** The stream byte by byte. */
  function Singles(s: string): (r: seq<string>)
    ensures Readable(r)
  {
    if s == "" then [] else [[s[0]]] + Singles(s[1..])
  }

  lemma {:induction false} ConcatAppend(xs: seq<string>, ys: seq<string>)
    ensures Concat(xs + ys) == Concat(xs) + Concat(ys)
    decreases |xs|
  {
    if xs == [] {
      assert xs + ys == ys && "" + Concat(ys) == Concat(ys);
    } else {
      ConcatAppend(xs[1..], ys);
      assert (xs + ys)[1..] == xs[1..] + ys;
      assert xs[0] + (Concat(xs[1..]) + Concat(ys)) == xs[0] + Concat(xs[1..]) + Concat(ys);
    }
  }

  lemma {:induction false} SinglesConcat(s: string)
    ensures Concat(Singles(s)) == s
  {
    if s != "" {
      SinglesConcat(s[1..]);
      assert Singles(s)[1..] == Singles(s[1..]);
      assert [s[0]] + s[1..] == s;
    }
  }

  /** The request stays incomplete until the last of the pieces. */
  ghost predicate Waits(held: string, pieces: seq<string>)
    decreases |pieces|
  {
    pieces == [] || (ParseRequest(held).Incomplete? && Waits(held + pieces[0], pieces[1..]))
  }

  /** Pieces that leave the request incomplete pile up. */
  lemma {:induction false} PileUp(f: (string, seq<string>) -> Outcome, held: string, pieces: seq<string>,
                                  more: seq<string>)
    requires Waits(held, pieces)
    requires forall r, c, rest | ParseRequest(r).Incomplete? :: f(r, [c] + rest) == f(r + c, rest)
    ensures f(held, pieces + more) == f(held + Concat(pieces), more)
    decreases |pieces|
  {
    if pieces == [] {
      assert held + "" == held && pieces + more == more;
    } else {
      var c, rest := pieces[0], pieces[1..];
      assert pieces + more == [c] + (rest + more);
      PileUp(f, held + c, rest, more);
      assert held + c + Concat(rest) == held + (c + Concat(rest));
    }
  }

  lemma Accumulate(h: Handler, log: seq<Args>, held: string, pieces: seq<string>, more: seq<string>)
    requires Waits(held, pieces)
    ensures Resume(h, log, held, pieces + more) == Resume(h, log, held + Concat(pieces), more)
  {
    var f := (r, rest) => Resume(h, log, r, rest);
    forall r, c, rest | ParseRequest(r).Incomplete? ensures f(r, [c] + rest) == f(r + c, rest) {
      NextPiece(h, log, r, c, rest);
    }
    PileUp(f, held, pieces, more);
  }

  lemma {:induction false} SinglesWait(held: string, b: string)
    requires forall k | 0 <= k < |b| :: ParseRequest(held + b[..k]).Incomplete?
    ensures Waits(held, Singles(b))
    decreases |b|
  {
    if b != "" {
      var c, rest := [b[0]], b[1..];
      assert held + b[..0] == held;
      assert Singles(b)[1..] == Singles(rest);
      forall k | 0 <= k < |rest| ensures ParseRequest(held + c + rest[..k]).Incomplete? {
        assert held + c + rest[..k] == held + b[..k + 1];
      }
      SinglesWait(held + c, rest);
    }
  }

  lemma PrefixWaits(a: string, k: nat)
    requires ParseRequest(a).Ok? && ParseRequest(a).consumed == |a| && k < |a| && (OverLong(a) ==> k <= MAX_INLINE)
    ensures ParseRequest(a[..k]).Incomplete?
  {
    if OverLong(a) {
      ShortOfNewline(a, k);
    } else if !ParseRequest(a[..k]).Incomplete? {
      assert a[..k] + a[k..] == a;
      ParseDecided(a[..k], a[k..]);
    }
  }

  /** Pieces that deliver the request `a` so that it is accepted if it can be. */
  function Pieces(a: string): (r: seq<string>)
    ensures Disputed(a) && ParseRequest(a).Ok? && ParseRequest(a).consumed == |a| ==> Readable(r)
    ensures !OverLong(a) ==> Readable(r)
  {
    if OverLong(a) then Singles(a[..MAX_INLINE]) + [a[MAX_INLINE..]] else Singles(a)
  }

  lemma PiecesConcat(a: string, more: seq<string>)
    ensures Concat(Pieces(a) + more) == a + Concat(more)
  {
    ConcatAppend(Pieces(a), more);
    if OverLong(a) {
      ConcatAppend(Singles(a[..MAX_INLINE]), [a[MAX_INLINE..]]);
      SinglesConcat(a[..MAX_INLINE]);
      assert [a[MAX_INLINE..]][1..] == [] && a[MAX_INLINE..] + "" == a[MAX_INLINE..];
      assert a[..MAX_INLINE] + a[MAX_INLINE..] == a;
    } else {
      SinglesConcat(a);
    }
  }

  lemma PlainArrives(h: Handler, log: seq<Args>, a: string, more: seq<string>)
    requires ParseRequest(a).Ok? && ParseRequest(a).consumed == |a| && !OverLong(a)
    ensures Resume(h, log, "", Singles(a) + more) == Resume(h, log, a, more)
  {
    forall k | 0 <= k < |a| ensures ParseRequest("" + a[..k]).Incomplete? {
      PrefixWaits(a, k);
      assert "" + a[..k] == a[..k];
    }
    SinglesWait("", a);
    SinglesConcat(a);
    assert "" + a == a;
    Accumulate(h, log, "", Singles(a), more);
  }

  lemma LongArrives(h: Handler, log: seq<Args>, a: string, held: string, last: string, more: seq<string>)
    requires ParseRequest(a).Ok? && ParseRequest(a).consumed == |a| && OverLong(a)
    requires held == a[..MAX_INLINE] && held + last == a
    ensures Resume(h, log, "", Singles(held) + ([last] + more)) == Resume(h, log, a, more)
  {
    forall k | 0 <= k < |held| ensures ParseRequest("" + held[..k]).Incomplete? {
      PrefixWaits(a, k);
      assert "" + held[..k] == a[..k];
    }
    SinglesWait("", held);
    SinglesConcat(held);
    assert "" + held == held;
    Accumulate(h, log, "", Singles(held), [last] + more);
    PrefixWaits(a, MAX_INLINE);
    NextPiece(h, log, held, last, more);
  }

  lemma PiecesArrive(h: Handler, log: seq<Args>, a: string, more: seq<string>)
    requires ParseRequest(a).Ok? && ParseRequest(a).consumed == |a|
    ensures Resume(h, log, "", Pieces(a) + more) == Resume(h, log, a, more)
  {
    if OverLong(a) {
      var held, last := a[..MAX_INLINE], a[MAX_INLINE..];
      assert Pieces(a) + more == Singles(held) + ([last] + more);
      LongArrives(h, log, a, held, last, more);
    } else {
      PlainArrives(h, log, a, more);
    }
  }

  /** The first request of the stream, cut off. */
  lemma FirstRequest(s: string) returns (a: string, rest: string)
    requires ParseRequest(s).Ok?
    ensures a + rest == s && rest == s[ParseRequest(s).consumed..] && |a| == ParseRequest(s).consumed
    ensures ParseRequest(a) == ParseRequest(s) && OverLong(a) == OverLong(s) && Disputed(a) == Disputed(s)
  {
    var n := ParseRequest(s).consumed;
    a, rest := s[..n], s[n..];
    RequestNeedsNoMore(s, n);
    DecidedOk(a, rest);
  }

  lemma AcceptedFirst(h: Handler, log: seq<Args>, a: string, more: seq<string>)
    requires ParseRequest(a).Ok? && ParseRequest(a).consumed == |a|
    ensures var args := ParseRequest(a).value;
      Resume(h, log, "", Pieces(a) + more) ==
        if IsQuit(args) then Outcome([args], h.reply(log + [args]), |a|, true)
        else Around(h, log, args, |a|, Resume(h, Logged(log, args), "", more))
  {
    PiecesArrive(h, log, a, more);
    if IsQuit(ParseRequest(a).value) {
      QuitEnds(h, log, a, more);
    } else {
      ResumeRequest(h, log, a, more);
      assert a[|a|..] == "";
    }
  }

  lemma OtherErrors(m: ProtocolError)
    requires m != BigInline
    ensures Replies.Line('-', Message(m)) != Replies.Line('-', Message(BigInline))
  {
    assert Replies.Line('-', Message(BigInline))[1..1 + |Message(BigInline)|] == Message(BigInline);
    assert Replies.Line('-', Message(m))[1..1 + |Message(m)|] == Message(m);
    assert |Replies.Line('-', Message(m))| == |Message(m)| + 3;
  }

  /** Byte by byte, what is not disputed. */
  lemma SinglesStrict(h: Handler, log: seq<Args>, s: string)
    requires SplitsAgree(s)
    ensures Seen(Resume(h, log, "", Singles(s))) == Seen(Strict(h, log, s))
  {
    SinglesConcat(s);
    assert "" + "" == "" && "" + s == s;
    ResumeIsStrict(h, log, "", "", Singles(s));
  }

  lemma {:induction false} NotRefused(h: Handler, log: seq<Args>, s: string) returns (cut: seq<string>)
    requires !AlwaysRefused(s)
    ensures Readable(cut) && Concat(cut) == s && Seen(Resume(h, log, "", cut)) != Refused
    decreases |s|
  {
    if ParseRequest(s).Ok? {
      var a, rest := FirstRequest(s);
      var args, tail := ParseRequest(s).value, Singles(rest);
      if args == [] {
        tail := NotRefused(h, log, rest);
      } else {
        SinglesConcat(rest);
      }
      cut := Pieces(a) + tail;
      PiecesConcat(a, tail);
      AcceptedFirst(h, log, a, tail);
    } else {
      cut := Singles(s);
      SinglesConcat(s);
      SinglesStrict(h, log, s);
      if ParseRequest(s).Error? {
        OtherErrors(ParseRequest(s).reason);
      }
    }
  }

  /** Cut before its newline, a long line is refused. */
  lemma RefusedEarly(h: Handler, log: seq<Args>, s: string) returns (cut: seq<string>)
    requires OverLong(s)
    ensures Readable(cut) && Concat(cut) == s && Resume(h, log, "", cut) == Refused
  {
    var b, rest := s[..MAX_INLINE + 1], s[MAX_INLINE + 1..];
    cut := Singles(b) + Singles(rest);
    ConcatAppend(Singles(b), Singles(rest));
    SinglesConcat(b);
    SinglesConcat(rest);
    forall k | 0 <= k < |b| ensures ParseRequest("" + b[..k]).Incomplete? {
      ShortOfNewline(s, k);
      assert "" + b[..k] == s[..k];
    }
    ShortOfNewline(s, MAX_INLINE + 1);
    SinglesWait("", b);
    assert "" + b == b;
    Accumulate(h, log, "", Singles(b), Singles(rest));
  }

  lemma {:induction false} CutsDiffer(h: Handler, log: seq<Args>, s: string) returns (x: seq<string>, y: seq<string>)
    requires !SplitsAgree(s)
    ensures Readable(x) && Readable(y) && Concat(x) == s && Concat(y) == s
    ensures Seen(Resume(h, log, "", x)) != Seen(Resume(h, log, "", y))
    decreases |s|
  {
    if Disputed(s) {
      x := NotRefused(h, log, s);
      y := RefusedEarly(h, log, s);
    } else {
      var a, rest := FirstRequest(s);
      var args := ParseRequest(s).value;
      var x', y' := CutsDiffer(h, Logged(log, args), rest);
      x, y := Pieces(a) + x', Pieces(a) + y';
      PiecesConcat(a, x');
      PiecesConcat(a, y');
      AcceptedFirst(h, log, a, x');
      AcceptedFirst(h, log, a, y');
      AroundSeen(h, log, args, |a|, Resume(h, Logged(log, args), "", x'), Resume(h, Logged(log, args), "", y'));
    }
  }

  /** Every way the stream can be read does the same. */
  ghost predicate CutsAgree(h: Handler, s: string) {
    forall x, y | Readable(x) && Readable(y) && Concat(x) == s && Concat(y) == s ::
      Seen(Arrived(h, x)) == Seen(Arrived(h, y))
  }

  lemma AgreedCuts(h: Handler, s: string)
    requires SplitsAgree(s)
    ensures CutsAgree(h, s)
  {
    forall x, y | Readable(x) && Readable(y) && Concat(x) == s && Concat(y) == s
      ensures Seen(Arrived(h, x)) == Seen(Arrived(h, y))
    {
      ArrivedIsStrict(h, x);
      ArrivedIsStrict(h, y);
    }
  }

  lemma DisputedCuts(h: Handler, s: string)
    requires !SplitsAgree(s)
    ensures !CutsAgree(h, s)
  {
    var x, y := CutsDiffer(h, [], s);
    assert Seen(Arrived(h, x)) != Seen(Arrived(h, y));
  }

  /** Exactly when the cuts into reads do not matter. */
  lemma SplitsAgreeExactly(h: Handler, s: string)
    ensures CutsAgree(h, s) <==> SplitsAgree(s)
  {
    if SplitsAgree(s) {
      AgreedCuts(h, s);
    } else {
      DisputedCuts(h, s);
    }
  }

  // ---------- on sessions ----------

  /**
    Whenever a session waits for more input or has finished, what it executed and wrote is strict
    processing of the whole stream, unless the cuts are disputed.
   */
  lemma QuiescentIsStrict(session: ClientSession)
    requires session.Valid() && !session.failed && (session.closed || session.outstanding == [Read])
    requires SplitsAgree(Concat(session.chunks))
    ensures Outcome(session.log, session.sent, 0, session.closed) ==
            Seen(Strict(session.handler, [], Concat(session.chunks)))
  {
    session.QuiescentIsArrived();
    ArrivedIsStrict(session.handler, session.chunks);
  }

  /** The first 64 KiB of a line, in full reads. */
  function Quarters(line: string): (r: seq<Piece>)
    requires |line| >= MAX_INLINE
    ensures |r| == 4
  {
    [line[..READ_CHUNK], line[READ_CHUNK..2 * READ_CHUNK], line[2 * READ_CHUNK..3 * READ_CHUNK],
     line[3 * READ_CHUNK..4 * READ_CHUNK]]
  }

  lemma FourPieces(a: string, b: string, c: string, d: string)
    ensures Concat([a, b, c, d]) == a + b + c + d
  {
    var x, y, z := [b, c, d], [c, d], [d];
    assert [a, b, c, d][1..] == x && x[1..] == y && y[1..] == z && z[1..] == [];
    assert Concat(z) == d + "" == d;
    assert Concat(y) == c + d;
    assert Concat(x) == b + (c + d);
    assert a + (b + (c + d)) == a + b + c + d;
  }

  lemma FourWait(a: string, b: string, c: string, d: string)
    requires ParseRequest(a).Incomplete? && ParseRequest(a + b).Incomplete? && ParseRequest(a + b + c).Incomplete?
    ensures Waits("", [a, b, c, d])
  {
    var x, y, z := [b, c, d], [c, d], [d];
    assert [a, b, c, d][1..] == x && x[1..] == y && y[1..] == z && z[1..] == [];
    assert Waits(a + b + c, z);
    assert Waits(a + b, y);
    assert Waits(a, x);
    assert "" + a == a;
  }

  lemma ShortPrefix(line: string, k: nat)
    requires k <= |line| && k <= MAX_INLINE && line != "" && line[0] != '*' && FindChar(line, '\n', 0).None?
    ensures ParseRequest(line[..k]).Incomplete?
  {
    assert forall i | 0 <= i < k :: line[..k][i] == line[i];
  }

  lemma QuartersPileUp(h: Handler, line: string, more: seq<string>)
    requires |line| >= MAX_INLINE && line[0] != '*' && FindChar(line, '\n', 0).None?
    ensures Concat(Quarters(line) + more) == line[..MAX_INLINE] + Concat(more)
    ensures Arrived(h, Quarters(line) + more) == Resume(h, [], line[..MAX_INLINE], more)
  {
    var q := Quarters(line);
    var a: string, b: string, c: string, d: string := q[0], q[1], q[2], q[3];
    assert q == [a, b, c, d];
    assert a + b == line[..2 * READ_CHUNK] && a + b + c == line[..3 * READ_CHUNK];
    assert a + b + c + d == line[..MAX_INLINE] && "" + line[..MAX_INLINE] == line[..MAX_INLINE];
    ShortPrefix(line, READ_CHUNK);
    ShortPrefix(line, 2 * READ_CHUNK);
    ShortPrefix(line, 3 * READ_CHUNK);
    FourPieces(a, b, c, d);
    FourWait(a, b, c, d);
    ConcatAppend(q, more);
    Accumulate(h, [], "", q, more);
  }

  /** The newline comes with the fifth read. */
  function Along(line: string): seq<Piece>
    requires MAX_INLINE < |line| < MAX_INLINE + READ_CHUNK
  {
    Quarters(line) + [line[MAX_INLINE..] + "\n"]
  }

  /** The newline comes after the fifth read. */
  function Later(line: string): seq<Piece>
    requires MAX_INLINE < |line| < MAX_INLINE + READ_CHUNK
  {
    Quarters(line) + [line[MAX_INLINE..], "\n"]
  }

  /** A line in the window is processed if its newline comes along, refused if it comes later. */
  lemma LongLineTwoRuns(h: Handler, line: string)
    requires MAX_INLINE < |line| < MAX_INLINE + READ_CHUNK && line[0] != '*' && FindChar(line, '\n', 0).None?
    ensures Concat(Along(line)) == Concat(Later(line)) == line + "\n"
    ensures Arrived(h, Along(line)) == Sequential(h, [], line + "\n") && Arrived(h, Later(line)) == Refused
  {
    var held, tail := line[..MAX_INLINE], line[MAX_INLINE..];
    assert held + tail == line && held + (tail + "\n") == line + "\n";
    TwoTails(tail, "\n");
    QuartersPileUp(h, line, [tail + "\n"]);
    QuartersPileUp(h, line, [tail, "\n"]);
    ShortPrefix(line, MAX_INLINE);
    NextPiece(h, [], held, tail + "\n", []);
    NextPiece(h, [], held, tail, ["\n"]);
  }

  lemma TwoTails(a: string, b: string)
    ensures Concat([a + b]) == a + b && Concat([a, b]) == a + b
    ensures [a + b] + [] == [a + b] && [a] + [b] == [a, b]
  {
    assert [a, b][1..] == [b] && [b][1..] == [] && [a + b][1..] == [];
    assert b + "" == b && a + b + "" == a + b;
  }

  lemma LongLineLogs(h: Handler, line: string)
    requires MAX_INLINE < |line| < MAX_INLINE + READ_CHUNK && line[0] != '*' && FindChar(line, '\n', 0).None?
    requires Tokens(StripCr(line)) != []
    ensures Concat(Along(line)) == Concat(Later(line)) == line + "\n"
    ensures Arrived(h, Along(line)).executed == [Tokens(StripCr(line))]
    ensures Arrived(h, Later(line)).executed == [] && Arrived(h, Later(line)).closing
  {
    LongLineTwoRuns(h, line);
    LineExecuted(h, line);
  }

  lemma LineExecuted(h: Handler, line: string)
    requires line != "" && line[0] != '*' && FindChar(line, '\n', 0).None? && Tokens(StripCr(line)) != []
    ensures Sequential(h, [], line + "\n").executed == [Tokens(StripCr(line))]
  {
    var s := line + "\n";
    assert s[|line|] == '\n' && s[..|line|] == line;
    assert forall i | 0 <= i < |line| :: s[i] == line[i];
    assert ParseRequest(s) == Ok(Tokens(StripCr(line)), |s|);
    assert s[|s|..] == "" && [Tokens(StripCr(line))] + [] == [Tokens(StripCr(line))];
  }

  /** One stream, two sessions whose logs differ, for every line in the window that holds a request. */
  method ServeLongLine(h: Handler, line: string) returns (along: ClientSession, later: ClientSession)
    requires MAX_INLINE < |line| < MAX_INLINE + READ_CHUNK && line[0] != '*' && FindChar(line, '\n', 0).None?
    requires Tokens(StripCr(line)) != []
    ensures Concat(Along(line)) == Concat(Later(line)) == line + "\n"
    ensures along.Valid() && along.handler == h && along.log == [Tokens(StripCr(line))]
    ensures later.Valid() && later.handler == h && later.log == [] && later.closed
  {
    LongLineLogs(h, line);
    along := Serve(h, Along(line));
    later := Serve(h, Later(line));
  }
}
