/** RESP replies: parse_reply and the append_* encoders, nested arrays included. */
module Replies {
  import opened Options
  import opened Decimals
  import opened Resp
  import opened Words

  /** One reply at the front of `buf`.  parse_reply carries no error message. */
  function ParseReply(buf: string): (r: ParseResult<RespValue>)
    ensures r.Ok? ==> 0 < r.consumed <= |buf|
    decreases |buf|, 1, 0
  {
    match FindCrlf(buf)
    case None => Incomplete
    case Some(eol) => if eol == 0 then Error(BadReply) else ParseTyped(buf, eol)
  }

  function ParseTyped(buf: string, eol: nat): (r: ParseResult<RespValue>)
    requires 0 < eol && CrlfAt(buf, eol)
    ensures r.Ok? ==> 0 < r.consumed <= |buf|
    decreases |buf|, 0, 0
  {
    var line := buf[1..eol];
    if buf[0] == '+' then Ok(SimpleString(line), eol + 2)
    else if buf[0] == '-' then Ok(ErrorString(line), eol + 2)
    else
      var n := ParseInt64(line);
      if n.None? then Error(BadReply)
      else if buf[0] == ':' then Ok(Integer(n.value), eol + 2)
      else if buf[0] == '$' then
        if n.value < -1 || n.value > MAX_BULK then Error(BadReply)
        else if n.value == -1 then Ok(Null, eol + 2)
        else
          var end := eol + 2 + n.value;
          if end + 2 > |buf| then Incomplete else Ok(BulkString(buf[eol + 2..end]), end + 2)
      else if buf[0] == '*' then
        if n.value < -1 || n.value > MAX_ARRAY then Error(BadReply)
        else if n.value == -1 then Ok(Null, eol + 2)
        else
          match ParseElements(buf[eol + 2..], n.value)
          case Ok(es, used) => Ok(Array(es), eol + 2 + used)
          case Incomplete => Incomplete
          case Error(m) => Error(m)
      else Error(BadReply)
  }

  function ParseElements(buf: string, count: nat): (r: ParseResult<seq<RespValue>>)
    ensures r.Ok? ==> r.consumed <= |buf|
    decreases |buf|, 2, count
  {
    if count == 0 then Ok([], 0)
    else
      match ParseReply(buf)
      case Ok(v, used) => Continue([v], used, ParseElements(buf[used..], count - 1))
      case Incomplete => Incomplete
      case Error(m) => Error(m)
  }

  /** parse_reply: recursion over nested arrays, a loop over the elements of each. */
  method ParseReplyLoop(buf: string) returns (r: ParseResult<RespValue>)
    ensures r == ParseReply(buf)
    decreases |buf|, 0
  {
    var eol := FindCrlf(buf);
    if eol.None? {
      return Incomplete;
    }
    if buf[0] == '*' {
      var n := ParseInt64(buf[1..eol.value]);
      if n.None? || n.value < -1 || n.value > MAX_ARRAY {
        return Error(BadReply);
      }
      if n.value == -1 {
        return Ok(Null, eol.value + 2);
      }
      ElementsAreMany(buf[eol.value + 2..], n.value);
      var es := ParseElementsLoop(buf[eol.value + 2..], n.value, ParseReply);
      match es {
        case Ok(vs, used) => return Ok(Array(vs), eol.value + 2 + used);
        case Incomplete => return Incomplete;
        case Error(m) => return Error(m);
      }
    }
    r := if eol.value == 0 then Error(BadReply) else ParseTyped(buf, eol.value);
  }

  lemma {:induction false} ElementsAreMany(buf: string, count: nat)
    ensures Bounded(ParseReply) && ParseElements(buf, count) == ManyFrom(ParseReply, buf, 0, [], count)
  {
    ManyElements(buf, count);
    ManyFromIs(ParseReply, buf, 0, [], count);
    assert buf[0..] == buf;
    ContinueFromNothing(ParseElements(buf, count));
  }

  lemma ElementsUnfold(s: string, n: nat)
    ensures Bounded(ParseReply) && Unfolds(ParseReply, ParseElements, s, n)
  {
  }

  lemma ManyElements(buf: string, count: nat)
    ensures Bounded(ParseReply) && ParseElements(buf, count) == Many(ParseReply, buf, count)
  {
    forall s, n: nat ensures Bounded(ParseReply) && Unfolds(ParseReply, ParseElements, s, n) {
      ElementsUnfold(s, n);
    }
    ManyUnique(ParseReply, ParseElements, buf, count);
  }

  /** The loop over an array's elements; `one` is what its body parses. */
  method ParseElementsLoop(buf: string, count: nat, ghost one: string -> ParseResult<RespValue>)
    returns (r: ParseResult<seq<RespValue>>)
    requires Bounded(one) && forall s {:trigger ParseReply(s)} :: one(s) == ParseReply(s)
    ensures r == ManyFrom(one, buf, 0, [], count)
    decreases |buf|, 1
  {
    var elements: seq<RespValue> := [];
    var pos := 0;
    var i := 0;
    while i < count
      invariant 0 <= i <= count && 0 <= pos <= |buf|
      invariant ManyFrom(one, buf, pos, elements, count - i) == ManyFrom(one, buf, 0, [], count)
    {
      var e := ParseReplyLoop(buf[pos..]);
      match e {
        case Incomplete => return Incomplete;
        case Error(m) => return Error(m);
        case Ok(v, used) =>
          elements := elements + [v];
          pos := pos + used;
      }
      i := i + 1;
    }
    return Ok(elements, pos);
  }

  lemma ContinueFromNothing<T>(r: ParseResult<seq<T>>)
    ensures Continue([], 0, r) == r
  {
    if r.Ok? {
      assert [] + r.value == r.value;
    }
  }

  // ---------- appended bytes change nothing ----------

  lemma {:induction false} ReplyStable(buf: string, more: string)
    requires !ParseReply(buf).Incomplete?
    ensures ParseReply(buf + more) == ParseReply(buf)
    decreases |buf|, 0, 0
  {
    FindCrlfStable(buf, more);
    var eol := FindCrlf(buf).value;
    if eol > 0 {
      assert (buf + more)[1..eol] == buf[1..eol] && (buf + more)[0] == buf[0];
      var n := ParseInt64(buf[1..eol]);
      if buf[0] == '$' && n.Some? && 0 <= n.value <= MAX_BULK {
        assert (buf + more)[eol + 2..eol + 2 + n.value] == buf[eol + 2..eol + 2 + n.value];
      } else if buf[0] == '*' && n.Some? && 0 <= n.value <= MAX_ARRAY {
        ElementsStable(buf[eol + 2..], more, n.value);
        StableFrom(ParseElements, buf, more, eol + 2, n.value);
      }
    }
  }

  lemma {:induction false} ElementsStable(buf: string, more: string, count: nat)
    requires !ParseElements(buf, count).Incomplete?
    ensures ParseElements(buf + more, count) == ParseElements(buf, count)
    decreases |buf|, 1, 1
  {
    ManyElements(buf, count);
    ManyElements(buf + more, count);
    forall k | 0 <= k <= |buf| ensures Steady(ParseReply, buf[k..], more) {
      ReplySteady(buf[k..], more);
    }
    ManyStable(ParseReply, buf, more, count);
  }

  lemma {:induction false} ReplySteady(buf: string, more: string)
    ensures Steady(ParseReply, buf, more)
    decreases |buf|, 1, 0
  {
    if !ParseReply(buf).Incomplete? {
      ReplyStable(buf, more);
    }
  }

  // ---------- round trip ----------

  function Line(c: char, s: string): string {
    [c] + s + "\r\n"
  }

  /** The append_* encoders. */
  function Encode(v: RespValue): string
    decreases v
  {
    match v
    case SimpleString(s) => Line('+', s)
    case ErrorString(s) => Line('-', s)
    case Integer(n) => Header(':', n)
    case BulkString(s) => Bulk(s)
    case Null => "$-1\r\n"
    case Array(es) => Header('*', |es|) + EncodeAll(es)
  }

  function EncodeAll(es: seq<RespValue>): string
    decreases es
  {
    if es == [] then "" else Encode(es[0]) + EncodeAll(es[1..])
  }

  predicate NoCrlf(s: string) {
    forall i: nat | i < |s| :: !CrlfAt(s, i)
  }

  predicate Encodable(v: RespValue)
    decreases v
  {
    match v
    case SimpleString(s) => NoCrlf(s)
    case ErrorString(s) => NoCrlf(s)
    case Integer(n) => -INT64_MAX - 1 <= n <= INT64_MAX
    case BulkString(s) => |s| <= MAX_BULK
    case Null => true
    case Array(es) => |es| <= MAX_ARRAY && AllEncodable(es)
  }

  predicate AllEncodable(es: seq<RespValue>)
    decreases es
  {
    es == [] || (Encodable(es[0]) && AllEncodable(es[1..]))
  }

  lemma LineFound(c: char, s: string, post: string)
    requires NoCrlf(s) && c != '\r'
    ensures var buf := Line(c, s) + post;
            FindCrlf(buf) == Some(1 + |s|) && buf[0] == c && buf[1..1 + |s|] == s
  {
    var buf := Line(c, s) + post;
    forall k | 0 <= k < 1 + |s| ensures !CrlfAt(buf, k) {
      if 0 < k < |s| {
        assert !CrlfAt(s, k - 1) && buf[k] == s[k - 1] && buf[k + 1] == s[k];
      }
    }
    FindCrlfIs(buf, 1 + |s|);
  }

  lemma BulkReplyRoundTrip(s: string, post: string)
    requires |s| <= MAX_BULK
    ensures ParseReply(Bulk(s) + post) == Ok(BulkString(s), |Bulk(s)|)
  {
    var h := Header('$', |s|);
    var tail := s + "\r\n" + post;
    assert Bulk(s) + post == h + tail;
    HeaderLine('$', |s|, tail);
    DecimalRoundTrip(|s|);
    assert (h + tail)[|h|..|h| + |s|] == tail[..|s|] == s;
  }

  lemma ArrayHeader(n: nat, tail: string)
    requires n <= MAX_ARRAY
    ensures ParseReply(Header('*', n) + tail) ==
            match ParseElements(tail, n)
            case Ok(es, used) => Ok(Array(es), |Header('*', n)| + used)
            case Incomplete => Incomplete
            case Error(m) => Error(m)
  {
    HeaderLine('*', n, tail);
    DecimalRoundTrip(n);
  }

  lemma NullRoundTrip(post: string)
    ensures ParseReply("$-1\r\n" + post) == Ok(Null, 5)
  {
    FromNatValue(1);
    assert FromNat(1) == "1" && ToString(-1) == "-1" && Header('$', -1) == "$-1\r\n";
    HeaderLine('$', -1, post);
    DecimalRoundTrip(-1);
  }

  lemma IntegerRoundTrip(n: int, post: string)
    requires -INT64_MAX - 1 <= n <= INT64_MAX
    ensures ParseReply(Header(':', n) + post) == Ok(Integer(n), |Header(':', n)|)
  {
    HeaderLine(':', n, post);
    DecimalRoundTrip(n);
  }

  lemma LineRoundTrip(s: string, post: string)
    requires NoCrlf(s)
    ensures ParseReply(Line('+', s) + post) == Ok(SimpleString(s), |Line('+', s)|)
    ensures ParseReply(Line('-', s) + post) == Ok(ErrorString(s), |Line('-', s)|)
  {
    LineFound('+', s, post);
    LineFound('-', s, post);
  }

  /** Every encodable reply, followed by any bytes, parses back to itself. */
  lemma {:induction false} ReplyRoundTrip(v: RespValue, post: string)
    requires Encodable(v)
    ensures ParseReply(Encode(v) + post) == Ok(v, |Encode(v)|)
    decreases v
  {
    match v
    case SimpleString(s) => LineRoundTrip(s, post);
    case ErrorString(s) => LineRoundTrip(s, post);
    case Integer(n) => IntegerRoundTrip(n, post);
    case BulkString(s) => BulkReplyRoundTrip(s, post);
    case Null => NullRoundTrip(post);
    case Array(es) =>
      assert Encode(v) + post == Header('*', |es|) + (EncodeAll(es) + post);
      ArrayHeader(|es|, EncodeAll(es) + post);
      ElementsRoundTrip(es, post);
  }

  lemma ElementsNext(e: string, v: RespValue, rest: string, count: nat)
    requires ParseReply(e + rest) == Ok(v, |e|) && count > 0
    ensures ParseElements(e + rest, count) == Continue([v], |e|, ParseElements(rest, count - 1))
  {
    assert (e + rest)[|e|..] == rest;
  }

  /** Whatever parses the elements: the first one and the rest make the whole. */
  lemma JoinElements(f: (string, nat) -> ParseResult<seq<RespValue>>, es: seq<RespValue>, e: string, r: string,
                     post: string)
    requires es != [] && f(r + post, |es| - 1) == Ok(es[1..], |r|)
    requires f(e + (r + post), |es|) == Continue([es[0]], |e|, f(r + post, |es| - 1))
    ensures f(e + r + post, |es|) == Ok(es, |e + r|)
  {
    assert e + r + post == e + (r + post);
    assert [es[0]] + es[1..] == es;
  }

  lemma {:induction false} ElementsRoundTrip(es: seq<RespValue>, post: string)
    requires AllEncodable(es)
    ensures ParseElements(EncodeAll(es) + post, |es|) == Ok(es, |EncodeAll(es)|)
    decreases es
  {
    if es != [] {
      ReplyRoundTrip(es[0], EncodeAll(es[1..]) + post);
      ElementsRoundTrip(es[1..], post);
      ElementsNext(Encode(es[0]), es[0], EncodeAll(es[1..]) + post, |es|);
      JoinElements(ParseElements, es, Encode(es[0]), EncodeAll(es[1..]), post);
    }
  }

  /** Every proper prefix of an encoded reply is Incomplete. */
  lemma ReplyPrefixIncomplete(v: RespValue, n: nat)
    requires Encodable(v) && n < |Encode(v)|
    ensures ParseReply(Encode(v)[..n]) == Incomplete
  {
    var e := Encode(v);
    ReplyRoundTrip(v, "");
    assert e + "" == e;
    assert e[..n] + e[n..] == e;
    if !ParseReply(e[..n]).Incomplete? {
      ReplyStable(e[..n], e[n..]);
      assert false;
    }
  }

  /** A simple string comes back unchanged exactly when it holds no line break. */
  lemma SimpleStringExact(s: string, post: string)
    ensures ParseReply(Line('+', s) + post) == Ok(SimpleString(s), |Line('+', s)|) <==> NoCrlf(s)
  {
    if NoCrlf(s) {
      LineFound('+', s, post);
    } else {
      var i: nat :| i < |s| && CrlfAt(s, i);
      assert CrlfAt(Line('+', s) + post, 1 + i);
    }
  }
}
