/**
  The RESP2 codec (protocol/resp.cpp, protocol/resp.hpp).

  The parsers are methods with the source's loops, proved equal to recursive functions on the
  buffer; round trips and stability under appended bytes are proved of those functions.
 */
module Resp {
  import opened Options
  import opened Decimals

  const MAX_BULK := 64 * 1024 * 1024
  const MAX_ARRAY := 1024 * 1024
  const MAX_INLINE := 64 * 1024

  datatype ProtocolError = BigInline | BadMultibulk | NoDollar | BadBulk | Unterminated | BadReply

  /** The text a client sees; replies from peers carry no reason. */
  function Message(e: ProtocolError): string {
    match e
    case BigInline => "Protocol error: too big inline request"
    case BadMultibulk => "Protocol error: invalid multibulk length"
    case NoDollar => "Protocol error: expected '$'"
    case BadBulk => "Protocol error: invalid bulk length"
    case Unterminated => "Protocol error: bulk string not terminated by CRLF"
    case BadReply => ""
  }

  datatype ParseResult<+T> = Ok(value: T, consumed: nat) | Incomplete | Error(reason: ProtocolError)

  datatype RespValue =
    | SimpleString(str: string)
    | ErrorString(str: string)
    | Integer(n: int)
    | BulkString(str: string)
    | Null
    | Array(elements: seq<RespValue>)

  // ---------- finding line ends ----------

  predicate CrlfAt(buf: string, i: nat) {
    i + 1 < |buf| && buf[i] == '\r' && buf[i + 1] == '\n'
  }

  /** The first CRLF at or after `pos`. */
  function FindCrlfFrom(buf: string, pos: nat): (r: Option<nat>)
    requires pos <= |buf|
    ensures r.Some? ==> pos <= r.value && CrlfAt(buf, r.value)
    ensures forall i | pos <= i < (if r.Some? then r.value else |buf|) :: !CrlfAt(buf, i)
    decreases |buf| - pos
  {
    if pos == |buf| then None
    else if CrlfAt(buf, pos) then Some(pos)
    else FindCrlfFrom(buf, pos + 1)
  }

  function FindCrlf(buf: string): Option<nat> {
    FindCrlfFrom(buf, 0)
  }

  function FindChar(buf: string, c: char, pos: nat): (r: Option<nat>)
    requires pos <= |buf|
    ensures r.Some? ==> pos <= r.value < |buf| && buf[r.value] == c
    ensures forall i | pos <= i < (if r.Some? then r.value else |buf|) :: buf[i] != c
    decreases |buf| - pos
  {
    if pos == |buf| then None
    else if buf[pos] == c then Some(pos)
    else FindChar(buf, c, pos + 1)
  }

  lemma FindCrlfIs(buf: string, i: nat)
    requires CrlfAt(buf, i) && forall k | 0 <= k < i :: !CrlfAt(buf, k)
    ensures FindCrlf(buf) == Some(i)
  {
  }

  lemma FindCrlfStable(buf: string, more: string)
    requires FindCrlf(buf).Some?
    ensures FindCrlf(buf + more) == FindCrlf(buf)
  {
    var i := FindCrlf(buf).value;
    forall k | 0 <= k < i ensures !CrlfAt(buf + more, k) {
      assert !CrlfAt(buf, k);
    }
    FindCrlfIs(buf + more, i);
  }

  /** Searching from `pos` is searching what remains from `pos`. */
  lemma FindCrlfShift(buf: string, pos: nat)
    requires pos <= |buf|
    ensures FindCrlf(buf[pos..]) ==
            if FindCrlfFrom(buf, pos).Some? then Some(FindCrlfFrom(buf, pos).value - pos) else None
  {
    var rest := buf[pos..];
    assert forall k: nat | k < |rest| :: CrlfAt(rest, k) <==> CrlfAt(buf, pos + k);
    if FindCrlfFrom(buf, pos).Some? {
      FindCrlfIs(rest, FindCrlfFrom(buf, pos).value - pos);
    } else if FindCrlf(rest).Some? {
      assert false;
    }
  }

  // ---------- requests ----------

  predicate Blank(c: char) {
    c == ' ' || c == '\t'
  }

  /** The maximal runs of non-blank characters, from position i; `start` is the open run. */
  function TokensFrom(line: string, start: nat, i: nat): seq<string>
    requires start <= i <= |line|
    decreases |line| - i
  {
    if i == |line| then (if start < i then [line[start..i]] else [])
    else if Blank(line[i]) then (if start < i then [line[start..i]] else []) + TokensFrom(line, i + 1, i + 1)
    else TokensFrom(line, start, i + 1)
  }

  function Tokens(line: string): seq<string> {
    TokensFrom(line, 0, 0)
  }

  function StripCr(line: string): string {
    if line != "" && line[|line| - 1] == '\r' then line[..|line| - 1] else line
  }

  function ParseInline(buf: string): ParseResult<seq<string>> {
    match FindChar(buf, '\n', 0)
    case None => if |buf| > MAX_INLINE then Error(BigInline) else Incomplete
    case Some(eol) => Ok(Tokens(StripCr(buf[..eol])), eol + 1)
  }

  /** One bulk string of a request, at the front of `buf`. */
  function ParseBulk(buf: string): (r: ParseResult<string>)
    ensures r.Ok? ==> 0 < r.consumed <= |buf|
  {
    if buf == "" then Incomplete
    else if buf[0] != '$' then Error(NoDollar)
    else
      match FindCrlf(buf)
      case None => Incomplete
      case Some(eol) =>
        var len := ParseInt64(buf[1..eol]);
        if len.None? || len.value < 0 || len.value > MAX_BULK then Error(BadBulk)
        else
          var end := eol + 2 + len.value;
          if end + 2 > |buf| then Incomplete
          else if !CrlfAt(buf, end) then Error(Unterminated)
          else Ok(buf[eol + 2..end], end + 2)
  }

  /** `r` as seen by a parser that already holds `args` and has consumed `pos` bytes. */
  function Continue<T>(args: seq<T>, pos: nat, r: ParseResult<seq<T>>): ParseResult<seq<T>> {
    match r
    case Ok(rest, used) => Ok(args + rest, pos + used)
    case Incomplete => Incomplete
    case Error(m) => Error(m)
  }

  function ParseBulks(buf: string, count: nat): (r: ParseResult<seq<string>>)
    ensures r.Ok? ==> r.consumed <= |buf|
    decreases count
  {
    if count == 0 then Ok([], 0)
    else
      match ParseBulk(buf)
      case Ok(s, used) => Continue([s], used, ParseBulks(buf[used..], count - 1))
      case Incomplete => Incomplete
      case Error(m) => Error(m)
  }

  function ParseMultibulk(buf: string): (r: ParseResult<seq<string>>)
    requires buf != "" && buf[0] == '*'
    ensures r.Ok? ==> 0 < r.consumed <= |buf|
  {
    match FindCrlf(buf)
    case None => Incomplete
    case Some(eol) =>
      var count := ParseInt64(buf[1..eol]);
      if count.None? || count.value < 0 || count.value > MAX_ARRAY then
        Error(BadMultibulk)
      else
        Continue([], eol + 2, ParseBulks(buf[eol + 2..], count.value))
  }

  function ParseRequest(buf: string): (r: ParseResult<seq<string>>)
    ensures r.Ok? ==> 0 < r.consumed <= |buf|
  {
    if buf == "" then Incomplete
    else if buf[0] != '*' then ParseInline(buf)
    else ParseMultibulk(buf)
  }

  /** parse_inline's nested scanning loops. */
  method SplitTokens(line: string) returns (args: seq<string>)
    ensures args == Tokens(line)
  {
    args := [];
    var i := 0;
    while i < |line|
      invariant 0 <= i <= |line|
      invariant args + TokensFrom(line, i, i) == Tokens(line)
    {
      while i < |line| && Blank(line[i])
        invariant 0 <= i <= |line|
        invariant args + TokensFrom(line, i, i) == Tokens(line)
      {
        i := i + 1;
      }
      if i >= |line| {
        break;
      }
      var start := i;
      while i < |line| && !Blank(line[i])
        invariant start <= i <= |line| && start < |line|
        invariant i == start ==> !Blank(line[start])
        invariant args + TokensFrom(line, start, i) == Tokens(line)
      {
        i := i + 1;
      }
      TokenEnds(line, start, i);
      args := args + [line[start..i]];
    }
  }

  lemma TokenEnds(line: string, start: nat, i: nat)
    requires start < i <= |line| && (i < |line| ==> Blank(line[i]))
    ensures TokensFrom(line, start, i) == [line[start..i]] + TokensFrom(line, i, i)
  {
  }

  /** The body of parse_request's loop: one bulk string at `pos`. */
  method ParseBulkAt(buf: string, pos: nat) returns (r: ParseResult<string>)
    requires pos <= |buf|
    ensures r == ParseBulk(buf[pos..])
  {
    var rest := buf[pos..];
    if pos >= |buf| {
      return Incomplete;
    }
    if buf[pos] != '$' {
      return Error(NoDollar);
    }
    var lenEol := FindCrlfFrom(buf, pos);
    FindCrlfShift(buf, pos);
    if lenEol.None? {
      return Incomplete;
    }
    assert buf[pos + 1..lenEol.value] == rest[1..lenEol.value - pos];
    var len := ParseInt64(buf[pos + 1..lenEol.value]);
    if len.None? || len.value < 0 || len.value > MAX_BULK {
      return Error(BadBulk);
    }
    var dataStart := lenEol.value + 2;
    var dataEnd := dataStart + len.value;
    if dataEnd + 2 > |buf| {
      return Incomplete;
    }
    if buf[dataEnd] != '\r' || buf[dataEnd + 1] != '\n' {
      return Error(Unterminated);
    }
    assert buf[dataStart..dataEnd] == rest[dataStart - pos..dataEnd - pos];
    return Ok(buf[dataStart..dataEnd], dataEnd + 2 - pos);
  }

  ghost predicate Bounded<T>(one: string -> ParseResult<T>) {
    forall s :: one(s).Ok? ==> one(s).consumed <= |s|
  }

  /** The loop's own recursion: `count` more elements from `pos`, after `args`. */
  ghost function ManyFrom<T>(one: string -> ParseResult<T>, buf: string, pos: nat, args: seq<T>, count: nat)
    : ParseResult<seq<T>>
    requires Bounded(one) && pos <= |buf|
    decreases count
  {
    if count == 0 then Ok(args, pos)
    else
      match one(buf[pos..])
      case Ok(s, used) => ManyFrom(one, buf, pos + used, args + [s], count - 1)
      case Incomplete => Incomplete
      case Error(m) => Error(m)
  }

  /** `count` elements, one after another. */
  ghost function Many<T>(one: string -> ParseResult<T>, buf: string, count: nat): ParseResult<seq<T>>
    requires Bounded(one)
    decreases count
  {
    if count == 0 then Ok([], 0)
    else
      match one(buf)
      case Ok(s, used) => Continue([s], used, Many(one, buf[used..], count - 1))
      case Incomplete => Incomplete
      case Error(m) => Error(m)
  }

  lemma {:induction false} ManyFromIs<T>(one: string -> ParseResult<T>, buf: string, pos: nat, args: seq<T>, count: nat)
    requires Bounded(one) && pos <= |buf|
    ensures ManyFrom(one, buf, pos, args, count) == Continue(args, pos, Many(one, buf[pos..], count))
    decreases count
  {
    if count == 0 {
      assert args + [] == args;
    } else if one(buf[pos..]).Ok? {
      var s, used := one(buf[pos..]).value, one(buf[pos..]).consumed;
      assert buf[pos..][used..] == buf[pos + used..];
      ManyFromIs(one, buf, pos + used, args + [s], count - 1);
      ContinueTwice(args, pos, [s], used, Many(one, buf[pos + used..], count - 1));
    }
  }

  /** `f` takes one element and goes on from there. */
  ghost predicate Unfolds<T(!new)>(one: string -> ParseResult<T>, f: (string, nat) -> ParseResult<seq<T>>,
                                   s: string, n: nat)
    requires Bounded(one)
  {
    if n == 0 then f(s, n) == Ok([], 0)
    else
      match one(s)
      case Ok(v, used) => f(s, n) == Continue([v], used, f(s[used..], n - 1))
      case Incomplete => f(s, n) == Incomplete
      case Error(m) => f(s, n) == Error(m)
  }

  lemma {:induction false} ManyUnique<T(!new)>(one: string -> ParseResult<T>,
                                               f: (string, nat) -> ParseResult<seq<T>>, buf: string, count: nat)
    requires Bounded(one) && forall s, n: nat :: Unfolds(one, f, s, n)
    ensures f(buf, count) == Many(one, buf, count)
    decreases count
  {
    assert Unfolds(one, f, buf, count);
    if count > 0 && one(buf).Ok? {
      ManyUnique(one, f, buf[one(buf).consumed..], count - 1);
    }
  }

  lemma BulksUnfold(s: string, n: nat)
    ensures Bounded(ParseBulk) && Unfolds(ParseBulk, ParseBulks, s, n)
  {
  }

  lemma BulksAreMany(buf: string, count: nat)
    ensures Bounded(ParseBulk) && ParseBulks(buf, count) == Many(ParseBulk, buf, count)
  {
    forall s, n: nat ensures Bounded(ParseBulk) && Unfolds(ParseBulk, ParseBulks, s, n) {
      BulksUnfold(s, n);
    }
    ManyUnique(ParseBulk, ParseBulks, buf, count);
  }

  /** parse_request's loop over the bulk strings; `one` is what its body parses. */
  method ParseBulksLoop(buf: string, start: nat, count: nat, ghost one: string -> ParseResult<string>)
    returns (r: ParseResult<seq<string>>)
    requires start <= |buf| && Bounded(one) && forall s {:trigger ParseBulk(s)} :: one(s) == ParseBulk(s)
    ensures r == ManyFrom(one, buf, start, [], count)
  {
    var pos := start;
    var args: seq<string> := [];
    var i := 0;
    while i < count
      invariant 0 <= i <= count && 0 <= pos <= |buf|
      invariant ManyFrom(one, buf, pos, args, count - i) == ManyFrom(one, buf, start, [], count)
    {
      var b := ParseBulkAt(buf, pos);
      match b {
        case Incomplete => return Incomplete;
        case Error(m) => return Error(m);
        case Ok(s, used) =>
          args := args + [s];
          pos := pos + used;
      }
      i := i + 1;
    }
    return Ok(args, pos);
  }

  lemma ContinueTwice<T>(a: seq<T>, p: nat, b: seq<T>, q: nat, r: ParseResult<seq<T>>)
    ensures Continue(a, p, Continue(b, q, r)) == Continue(a + b, p + q, r)
  {
    if r.Ok? {
      assert a + (b + r.value) == a + b + r.value;
    }
  }

  method ParseRequestLoop(buf: string) returns (r: ParseResult<seq<string>>)
    ensures r == ParseRequest(buf)
  {
    if buf == "" {
      return Incomplete;
    }
    if buf[0] != '*' {
      var nl := FindChar(buf, '\n', 0);
      if nl.None? {
        return if |buf| > MAX_INLINE then Error(BigInline) else Incomplete;
      }
      var args := SplitTokens(StripCr(buf[..nl.value]));
      return Ok(args, nl.value + 1);
    }
    var eol := FindCrlfFrom(buf, 0);
    if eol.None? {
      return Incomplete;
    }
    var count := ParseInt64(buf[1..eol.value]);
    if count.None? || count.value < 0 || count.value > MAX_ARRAY {
      return Error(BadMultibulk);
    }
    BulksAreMany(buf[eol.value + 2..], count.value);
    ManyFromIs(ParseBulk, buf, eol.value + 2, [], count.value);
    r := ParseBulksLoop(buf, eol.value + 2, count.value, ParseBulk);
  }

  // ---------- requests: appended bytes change nothing ----------

  lemma ParseBulkStable(buf: string, more: string)
    requires !ParseBulk(buf).Incomplete?
    ensures ParseBulk(buf + more) == ParseBulk(buf)
  {
    if buf[0] == '$' {
      FindCrlfStable(buf, more);
      var eol := FindCrlf(buf).value;
      assert (buf + more)[1..eol] == buf[1..eol];
      var len := ParseInt64(buf[1..eol]);
      if len.Some? && 0 <= len.value <= MAX_BULK {
        var end := eol + 2 + len.value;
        assert (buf + more)[eol + 2..end] == buf[eol + 2..end];
      }
    }
  }

  /** Whatever parses `count` elements: stable behind the first one, it is stable. */
  ghost predicate Steady<T>(one: string -> ParseResult<T>, s: string, more: string) {
    one(s).Incomplete? || one(s + more) == one(s)
  }

  /** If every element is decided by the bytes at hand, so is the whole. */
  lemma {:induction false} ManyStable<T>(one: string -> ParseResult<T>, buf: string, more: string, count: nat)
    requires Bounded(one) && forall k | 0 <= k <= |buf| :: Steady(one, buf[k..], more)
    requires !Many(one, buf, count).Incomplete?
    ensures Many(one, buf + more, count) == Many(one, buf, count)
    decreases count
  {
    assert buf[0..] == buf;
    assert Steady(one, buf[0..], more);
    if count > 0 && one(buf).Ok? {
      var used := one(buf).consumed;
      var rest := buf[used..];
      forall k | 0 <= k <= |rest| ensures Steady(one, rest[k..], more) {
        assert rest[k..] == buf[used + k..];
      }
      ManyStable(one, rest, more, count - 1);
      assert (buf + more)[used..] == rest + more;
    }
  }

  lemma StableFrom<T>(f: (string, nat) -> ParseResult<seq<T>>, buf: string, more: string, n: nat, count: nat)
    requires n <= |buf| && f(buf[n..] + more, count) == f(buf[n..], count)
    ensures f((buf + more)[n..], count) == f(buf[n..], count)
  {
    assert (buf + more)[n..] == buf[n..] + more;
  }

  lemma ParseBulksStable(buf: string, more: string, count: nat)
    requires !ParseBulks(buf, count).Incomplete?
    ensures ParseBulks(buf + more, count) == ParseBulks(buf, count)
  {
    BulksAreMany(buf, count);
    BulksAreMany(buf + more, count);
    forall k | 0 <= k <= |buf| ensures Steady(ParseBulk, buf[k..], more) {
      BulkSteady(buf[k..], more);
    }
    ManyStable(ParseBulk, buf, more, count);
  }

  lemma BulkSteady(buf: string, more: string)
    ensures Steady(ParseBulk, buf, more)
  {
    if !ParseBulk(buf).Incomplete? {
      ParseBulkStable(buf, more);
    }
  }

  lemma ParseMultibulkStable(buf: string, more: string)
    requires buf != "" && buf[0] == '*' && !ParseMultibulk(buf).Incomplete?
    ensures ParseMultibulk(buf + more) == ParseMultibulk(buf)
  {
    FindCrlfStable(buf, more);
    var eol := FindCrlf(buf).value;
    assert (buf + more)[1..eol] == buf[1..eol];
    var count := ParseInt64(buf[1..eol]);
    if count.Some? && 0 <= count.value <= MAX_ARRAY {
      ParseBulksStable(buf[eol + 2..], more, count.value);
      StableFrom(ParseBulks, buf, more, eol + 2, count.value);
    }
  }

  lemma FindCharStable(buf: string, more: string, c: char)
    requires FindChar(buf, c, 0).Some?
    ensures FindChar(buf + more, c, 0) == FindChar(buf, c, 0)
  {
    var i := FindChar(buf, c, 0).value;
    assert (buf + more)[i] == c;
    forall k | 0 <= k < i ensures (buf + more)[k] != c {
      assert buf[k] != c;
    }
  }

  /**
    A complete request, or a protocol error other than an over-long inline line, is recognised
    the same way whatever bytes follow.
   */
  lemma ParseRequestStable(buf: string, more: string)
    requires !ParseRequest(buf).Incomplete?
    requires buf[0] == '*' || ParseRequest(buf).Ok?
    ensures ParseRequest(buf + more) == ParseRequest(buf)
  {
    assert (buf + more)[0] == buf[0];
    if buf[0] == '*' {
      ParseMultibulkStable(buf, more);
    } else {
      FindCharStable(buf, more, '\n');
      var eol := FindChar(buf, '\n', 0).value;
      assert (buf + more)[..eol] == buf[..eol];
    }
  }

  // ---------- a request needs no more than it consumes ----------

  lemma FindCrlfWithin(buf: string, k: nat)
    requires FindCrlf(buf).Some? && FindCrlf(buf).value + 2 <= k <= |buf|
    ensures FindCrlf(buf[..k]) == FindCrlf(buf)
  {
    var i := FindCrlf(buf).value;
    forall j | 0 <= j < i ensures !CrlfAt(buf[..k], j) {
      assert !CrlfAt(buf, j);
    }
    FindCrlfIs(buf[..k], i);
  }

  lemma ParseBulkWithin(buf: string, k: nat)
    requires ParseBulk(buf).Ok? && ParseBulk(buf).consumed <= k <= |buf|
    ensures ParseBulk(buf[..k]) == ParseBulk(buf)
  {
    var eol := FindCrlf(buf).value;
    FindCrlfWithin(buf, k);
    assert buf[..k][1..eol] == buf[1..eol];
    var end := ParseBulk(buf).consumed - 2;
    assert buf[..k][eol + 2..end] == buf[eol + 2..end];
  }

  /** `one` looks at nothing beyond what it consumes. */
  ghost predicate Tight<T(!new)>(one: string -> ParseResult<T>) {
    forall s, k | 0 <= k <= |s| && one(s).Ok? && one(s).consumed <= k :: one(s[..k]) == one(s)
  }

  lemma BulksTight()
    ensures Bounded(ParseBulk) && Tight(ParseBulk)
  {
    forall s, k | 0 <= k <= |s| && ParseBulk(s).Ok? && ParseBulk(s).consumed <= k
      ensures ParseBulk(s[..k]) == ParseBulk(s)
    {
      ParseBulkWithin(s, k);
    }
  }

  lemma {:induction false} ManyWithin<T(!new)>(one: string -> ParseResult<T>, buf: string, count: nat, k: nat)
    requires Bounded(one) && Tight(one) && Many(one, buf, count).Ok? && Many(one, buf, count).consumed <= k <= |buf|
    ensures Many(one, buf[..k], count) == Many(one, buf, count)
    decreases count
  {
    if count > 0 {
      var used := one(buf).consumed;
      assert one(buf[..k]) == one(buf);
      assert buf[..k][used..] == buf[used..][..k - used];
      ManyWithin(one, buf[used..], count - 1, k - used);
    }
  }

  lemma ManyWithinFrom<T(!new)>(one: string -> ParseResult<T>, buf: string, count: nat, n: nat, k: nat)
    requires Bounded(one) && Tight(one) && n <= k <= |buf|
    requires Many(one, buf[n..], count).Ok? && n + Many(one, buf[n..], count).consumed <= k
    ensures Many(one, buf[..k][n..], count) == Many(one, buf[n..], count)
  {
    assert buf[..k][n..] == buf[n..][..k - n];
    ManyWithin(one, buf[n..], count, k - n);
  }

  /** The parts of a parsed request. */
  lemma MultibulkParts(buf: string) returns (eol: nat, count: nat)
    requires buf != "" && buf[0] == '*' && ParseRequest(buf).Ok?
    ensures FindCrlf(buf) == Some(eol) && eol + 2 <= |buf| && ParseInt64(buf[1..eol]) == Some(count) &&
            count <= MAX_ARRAY
    ensures ParseBulks(buf[eol + 2..], count).Ok?
    ensures ParseRequest(buf).consumed == eol + 2 + ParseBulks(buf[eol + 2..], count).consumed
  {
    eol := FindCrlf(buf).value;
    count := ParseInt64(buf[1..eol]).value;
  }

  lemma BulksWithinFrom(buf: string, k: nat, n: nat, count: nat)
    requires n <= k <= |buf| && ParseBulks(buf[n..], count).Ok? && n + ParseBulks(buf[n..], count).consumed <= k
    ensures ParseBulks(buf[..k][n..], count) == ParseBulks(buf[n..], count)
  {
    BulksTight();
    BulksAreMany(buf[n..], count);
    BulksAreMany(buf[..k][n..], count);
    ManyWithinFrom(ParseBulk, buf, count, n, k);
  }

  /** A request cut behind its last bulk string, by its parts. */
  lemma MultibulkCut(buf: string, cut: string, eol: nat, count: nat, r: ParseResult<seq<string>>)
    requires buf != "" && cut != "" && buf[0] == cut[0] == '*' && eol + 2 <= |cut| && eol + 2 <= |buf|
    requires FindCrlf(buf) == FindCrlf(cut) == Some(eol) && buf[1..eol] == cut[1..eol]
    requires ParseInt64(buf[1..eol]) == Some(count) && count <= MAX_ARRAY
    requires ParseBulks(buf[eol + 2..], count) == r && ParseBulks(cut[eol + 2..], count) == r
    ensures ParseRequest(cut) == ParseRequest(buf)
  {
    MultibulkAt(buf, eol, count);
    MultibulkAt(cut, eol, count);
  }

  lemma MultibulkWithin(buf: string, k: nat, eol: nat, count: nat)
    requires buf != "" && buf[0] == '*' && FindCrlf(buf) == Some(eol) && eol + 2 <= k <= |buf|
    requires ParseInt64(buf[1..eol]) == Some(count) && count <= MAX_ARRAY
    requires ParseBulks(buf[eol + 2..], count).Ok? && eol + 2 + ParseBulks(buf[eol + 2..], count).consumed <= k
    ensures ParseRequest(buf[..k]) == ParseRequest(buf)
  {
    FindCrlfWithin(buf, k);
    BulksWithinFrom(buf, k, eol + 2, count);
    assert buf[..k][1..eol] == buf[1..eol];
    MultibulkCut(buf, buf[..k], eol, count, ParseBulks(buf[eol + 2..], count));
  }

  lemma InlineWithin(buf: string, k: nat)
    requires ParseInline(buf).Ok? && ParseInline(buf).consumed <= k <= |buf|
    ensures ParseInline(buf[..k]) == ParseInline(buf)
  {
    var eol := FindChar(buf, '\n', 0).value;
    assert forall j | 0 <= j < eol :: buf[..k][j] != '\n';
    assert buf[..k][eol] == '\n' && buf[..k][..eol] == buf[..eol];
  }

  /** Cutting a buffer anywhere behind a parsed request leaves the request. */
  lemma RequestNeedsNoMore(buf: string, k: nat)
    requires ParseRequest(buf).Ok? && ParseRequest(buf).consumed <= k <= |buf|
    ensures ParseRequest(buf[..k]) == ParseRequest(buf)
  {
    if buf[0] == '*' {
      var eol, count := MultibulkParts(buf);
      MultibulkWithin(buf, k, eol, count);
    } else {
      InlineWithin(buf, k);
    }
  }

  // ---------- requests: round trip ----------

  /** A line holding a type byte and a number. */
  function Header(c: char, n: int): string {
    [c] + ToString(n) + "\r\n"
  }

  function Bulk(s: string): string {
    Header('$', |s|) + (s + "\r\n")
  }

  function Bulks(args: seq<string>): string {
    if args == [] then "" else Bulk(args[0]) + Bulks(args[1..])
  }

  function Command(args: seq<string>): string {
    Header('*', |args|) + Bulks(args)
  }

  /** resp::command's loop over append_bulk. */
  method EncodeCommand(args: seq<string>) returns (out: string)
    ensures out == Command(args)
  {
    out := Header('*', |args|);
    ghost var head := out;
    var i := 0;
    while i < |args|
      invariant 0 <= i <= |args|
      invariant out + Bulks(args[i..]) == head + Bulks(args)
    {
      BulksStep(out, args, i);
      out := out + Bulk(args[i]);
      i := i + 1;
    }
    assert out + "" == out;
  }

  lemma BulksStep(out: string, args: seq<string>, i: nat)
    requires i < |args|
    ensures out + Bulks(args[i..]) == out + Bulk(args[i]) + Bulks(args[i + 1..])
  {
    assert args[i..][1..] == args[i + 1..];
    assert out + (Bulk(args[i]) + Bulks(args[i + 1..])) == out + Bulk(args[i]) + Bulks(args[i + 1..]);
  }

  predicate WithinLimits(args: seq<string>) {
    |args| <= MAX_ARRAY && forall i | 0 <= i < |args| :: |args[i]| <= MAX_BULK
  }

  /** A header line is found and decoded whatever follows it. */
  lemma HeaderLine(c: char, n: int, post: string)
    requires c != '\r'
    ensures var buf, eol := Header(c, n) + post, |Header(c, n)| - 2;
            FindCrlf(buf) == Some(eol) && buf[0] == c && buf[1..eol] == ToString(n) && buf[eol + 2..] == post
  {
    var buf, eol := Header(c, n) + post, |Header(c, n)| - 2;
    DecimalHasNoCr(n);
    forall k | 0 <= k < eol ensures !CrlfAt(buf, k) {
      if k > 0 {
        assert buf[k] == ToString(n)[k - 1];
      }
    }
    FindCrlfIs(buf, eol);
  }

  /** What one bulk string is, given its header line and its terminator. */
  lemma BulkAt(buf: string, eol: nat, len: nat)
    requires buf != "" && buf[0] == '$' && FindCrlf(buf) == Some(eol)
    requires ParseInt64(buf[1..eol]) == Some(len) && len <= MAX_BULK
    requires eol + 2 + len + 2 <= |buf| && CrlfAt(buf, eol + 2 + len)
    ensures ParseBulk(buf) == Ok(buf[eol + 2..eol + 2 + len], eol + 2 + len + 2)
  {
  }

  /** Where the parts of an encoded bulk string are. */
  lemma BulkLayout(s: string, post: string)
    ensures var buf, eol := Bulk(s) + post, |Header('$', |s|)| - 2;
      && FindCrlf(buf) == Some(eol) && buf[0] == '$' && buf[1..eol] == ToString(|s|)
      && eol + 2 + |s| + 2 == |Bulk(s)| && buf[eol + 2..eol + 2 + |s|] == s && CrlfAt(buf, eol + 2 + |s|)
  {
    var h := Header('$', |s|);
    var tail := s + "\r\n" + post;
    assert Bulk(s) + post == h + tail;
    HeaderLine('$', |s|, tail);
    var end := |h| + |s|;
    assert (h + tail)[|h|..end] == tail[..|s|] == s;
    assert (h + tail)[end] == tail[|s|] && (h + tail)[end + 1] == tail[|s| + 1];
  }

  lemma ParseBulkRoundTrip(s: string, post: string)
    requires |s| <= MAX_BULK
    ensures ParseBulk(Bulk(s) + post) == Ok(s, |Bulk(s)|)
  {
    BulkLayout(s, post);
    DecimalRoundTrip(|s|);
    BulkAt(Bulk(s) + post, |Header('$', |s|)| - 2, |s|);
  }

  lemma ParseBulksNext(s: string, rest: string, count: nat)
    requires |s| <= MAX_BULK && count > 0
    ensures ParseBulks(Bulk(s) + rest, count) == Continue([s], |Bulk(s)|, ParseBulks(rest, count - 1))
  {
    ParseBulkRoundTrip(s, rest);
    assert (Bulk(s) + rest)[|Bulk(s)|..] == rest;
  }

  lemma {:induction false} ParseBulksRoundTrip(args: seq<string>, post: string)
    requires forall i | 0 <= i < |args| :: |args[i]| <= MAX_BULK
    ensures ParseBulks(Bulks(args) + post, |args|) == Ok(args, |Bulks(args)|)
    decreases |args|
  {
    if args != [] {
      var rest := Bulks(args[1..]) + post;
      assert Bulks(args) + post == Bulk(args[0]) + rest;
      ParseBulksNext(args[0], rest, |args|);
      ParseBulksRoundTrip(args[1..], post);
      assert [args[0]] + args[1..] == args;
    }
  }

  /** What a request is, given its header line. */
  lemma MultibulkAt(buf: string, eol: nat, count: nat)
    requires buf != "" && buf[0] == '*' && FindCrlf(buf) == Some(eol)
    requires ParseInt64(buf[1..eol]) == Some(count) && count <= MAX_ARRAY
    ensures ParseRequest(buf) == Continue([], eol + 2, ParseBulks(buf[eol + 2..], count))
  {
  }

  /** Parsing an encoded command followed by any bytes gives exactly its arguments. */
  lemma RequestRoundTrip(args: seq<string>, post: string)
    requires WithinLimits(args)
    ensures ParseRequest(Command(args) + post) == Ok(args, |Command(args)|)
  {
    var rest := Bulks(args) + post;
    assert Command(args) + post == Header('*', |args|) + rest;
    HeaderLine('*', |args|, rest);
    DecimalRoundTrip(|args|);
    MultibulkAt(Header('*', |args|) + rest, |Header('*', |args|)| - 2, |args|);
    ParseBulksRoundTrip(args, post);
    assert [] + args == args;
  }

  /** Every proper prefix of an encoded command is Incomplete. */
  lemma RequestPrefixIncomplete(args: seq<string>, n: nat)
    requires WithinLimits(args) && n < |Command(args)|
    ensures ParseRequest(Command(args)[..n]) == Incomplete
  {
    var e := Command(args);
    RequestRoundTrip(args, "");
    assert e + "" == e && e[0] == '*';
    PrefixIncomplete(e, n);
  }

  lemma PrefixIncomplete(e: string, n: nat)
    requires n < |e| && e[0] == '*' && ParseRequest(e).Ok? && ParseRequest(e).consumed == |e|
    ensures ParseRequest(e[..n]) == Incomplete
  {
    var p := e[..n];
    if !ParseRequest(p).Incomplete? {
      assert p + e[n..] == e;
      ParseRequestStable(p, e[n..]);
      assert false;
    }
  }
}
