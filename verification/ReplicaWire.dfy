/**
  Replication messages end to end: what a coordinator encodes is what the replica applies, and what
  a replica stores is what the coordinator decodes (network/client.cpp, protocol/parser.cpp,
  network/command_handler.cpp, through the RESP codec).
 */
module ReplicaWire {
  import opened Options
  import opened Versions
  import opened Decimals
  import opened Resp
  import opened Replies
  import opened Commands
  import opened Words

  function AtLeastOne(ttl: int): int {
    if ttl < 1 then 1 else ttl
  }

  function WriteCommand(key: string, v: VersionedValue): seq<string> {
    if v.tombstone then ["REPL_DEL", key, ToString(v.version)]
    else
      ["REPL_SET", key, v.value, ToString(v.version)] +
      if v.ttl.Some? then ["PX", ToString(AtLeastOne(v.ttl.value))] else []
  }

  function GetCommand(key: string): seq<string> {
    ["REPL_GET", key]
  }

  /** What dispatch hands to apply_replica_write. */
  function Applied(cmd: Command): Option<(string, VersionedValue)> {
    match cmd
    case ReplSet(key, value, version, ttl) => Some((key, VersionedValue(value, version, false, ttl)))
    case ReplDelete(key, version) => Some((key, VersionedValue("", version, true, None)))
    case _ => None
  }

  predicate Sendable(key: string, v: VersionedValue) {
    && |key| <= MAX_BULK && |v.value| <= MAX_BULK && v.version <= UINT64_MAX
    && (v.ttl.Some? ==> -INT64_MAX - 1 <= v.ttl.value <= INT64_MAX)
  }

  /** Versions and TTLs a write can carry unchanged. */
  predicate Preserved(v: VersionedValue) {
    if v.tombstone then v.value == "" && v.ttl.None?
    else v.ttl.Some? ==> 1 <= v.ttl.value <= MAX_TTL_MS
  }

  // ---------- writes ----------

  lemma VerbsAreUpper()
    ensures ToUpper("REPL_SET") == "REPL_SET" && ToUpper("REPL_DEL") == "REPL_DEL"
    ensures ToUpper("REPL_GET") == "REPL_GET" && ToUpper("PX") == "PX"
  {
  }

  function Pow10(n: nat): nat {
    if n == 0 then 1 else 10 * Pow10(n - 1)
  }

  lemma {:induction false} DecimalLength(n: nat, digits: nat)
    requires n < Pow10(digits) && digits >= 1
    ensures |FromNat(n)| <= digits
    decreases digits
  {
    if n >= 10 {
      DecimalLength(n / 10, digits - 1);
    }
  }

  lemma WordLength(n: nat)
    requires n <= UINT64_MAX
    ensures |ToString(n)| <= 20
  {
    assert Pow10(4) == 10000;
    assert Pow10(8) == 100000000;
    assert Pow10(12) == 1000000000000;
    assert Pow10(16) == 10000000000000000;
    assert Pow10(20) == 100000000000000000000;
    DecimalLength(n, 20);
  }

  lemma WriteFits(key: string, v: VersionedValue)
    requires Sendable(key, v)
    ensures WithinLimits(WriteCommand(key, v))
  {
    WordLength(v.version);
    if v.ttl.Some? {
      WordLength(AtLeastOne(v.ttl.value));
    }
  }

  lemma ParseDelete(key: string, v: VersionedValue)
    requires Sendable(key, v) && v.tombstone
    ensures ParseCommand(WriteCommand(key, v)) == ReplDelete(key, v.version)
  {
    VerbsAreUpper();
    DecimalRoundTrip(v.version);
  }

  lemma ParseSet(key: string, v: VersionedValue)
    requires Sendable(key, v) && !v.tombstone
    ensures ParseCommand(WriteCommand(key, v)) ==
            if v.ttl.None? then ReplSet(key, v.value, v.version, None)
            else if AtLeastOne(v.ttl.value) > MAX_TTL_MS then Invalid("ERR syntax error")
            else ReplSet(key, v.value, v.version, Some(AtLeastOne(v.ttl.value)))
  {
    VerbsAreUpper();
    DecimalRoundTrip(v.version);
    var args := WriteCommand(key, v);
    assert args[0] == "REPL_SET" && args[1] == key && args[2] == v.value && args[3] == ToString(v.version);
    if v.ttl.Some? {
      var n := AtLeastOne(v.ttl.value);
      DecimalRoundTrip(n);
      assert |args| == 6 && args[4] == "PX" && args[5] == ToString(n);
      assert SetOptions(args, 6, Some(n)) == Some(Some(n));
    }
  }

  /**
    A write encoded by the coordinator and followed by any bytes reaches the replica as exactly the
    same versioned value if, and only if, its TTL is absent or within the parser's range (and a
    tombstone is bare).
   */
  lemma WriteReachesReplica(key: string, v: VersionedValue, post: string)
    requires Sendable(key, v)
    ensures var cmd := WriteCommand(key, v);
            ParseRequest(Resp.Command(cmd) + post) == Ok(cmd, |Resp.Command(cmd)|)
            && (Applied(ParseCommand(cmd)) == Some((key, v)) <==> Preserved(v))
  {
    WriteFits(key, v);
    RequestRoundTrip(WriteCommand(key, v), post);
    if v.tombstone {
      ParseDelete(key, v);
    } else {
      ParseSet(key, v);
    }
  }

  /** A version query reaches the replica with its key. */
  lemma QueryReachesReplica(key: string, post: string)
    requires |key| <= MAX_BULK
    ensures var cmd := GetCommand(key);
            ParseRequest(Resp.Command(cmd) + post) == Ok(cmd, |Resp.Command(cmd)|) && ParseCommand(cmd) == ReplGet(key)
  {
    VerbsAreUpper();
    RequestRoundTrip(GetCommand(key), post);
  }

  // ---------- reads ----------

  function Signed(word: nat): int {
    if word <= INT64_MAX then word else word - WORD
  }

  function Unsigned(n: int): nat
    requires -INT64_MAX - 1 <= n
  {
    if n >= 0 then n else n + WORD
  }

  /** dispatch's reply to REPL_GET: [value, version, tombstone, ttl in ms or -1]. */
  function GetReply(v: Option<VersionedValue>): RespValue {
    if v.None? then Null
    else Array([BulkString(v.value.value), Integer(Signed(v.value.version)),
                Integer(if v.value.tombstone then 1 else 0),
                Integer(if v.value.ttl.Some? then AtLeastOne(v.value.ttl.value) else -1)])
  }

  datatype Decoded = Found(value: VersionedValue) | NotFound | Malformed

  predicate Int64(v: RespValue) {
    v.Integer? && -INT64_MAX - 1 <= v.n <= INT64_MAX
  }

  /** decode_replica_get. */
  function DecodeGet(r: RespValue): Decoded {
    if r.Null? then NotFound
    else if !r.Array? || |r.elements| != 4 || !Int64(r.elements[1]) || !Int64(r.elements[2]) || !Int64(r.elements[3])
    then Malformed
    else
      Found(VersionedValue(Text(r.elements[0]), Unsigned(r.elements[1].n), r.elements[2].n != 0,
                           if r.elements[3].n >= 0 then Some(r.elements[3].n) else None))
  }

  /** The str member of a reply: empty for types that carry no text. */
  function Text(v: RespValue): string {
    if v.SimpleString? || v.ErrorString? || v.BulkString? then v.str else ""
  }

  lemma ConsEncodable(e: RespValue, es: seq<RespValue>)
    requires Encodable(e) && AllEncodable(es)
    ensures AllEncodable([e] + es)
  {
    assert ([e] + es)[1..] == es;
  }

  lemma GetReplyEncodable(v: Option<VersionedValue>)
    requires v.Some? ==> Sendable("", v.value)
    ensures Encodable(GetReply(v))
  {
    if v.Some? {
      var es := GetReply(v).elements;
      ConsEncodable(es[3], []);
      ConsEncodable(es[2], [es[3]]);
      ConsEncodable(es[1], [es[2]] + [es[3]]);
      ConsEncodable(es[0], [es[1]] + ([es[2]] + [es[3]]));
      assert es == [es[0]] + ([es[1]] + ([es[2]] + [es[3]]));
    }
  }

  /**
    A REPL_GET reply decodes to exactly the stored value, for every 64-bit version, if and only if
    its TTL is absent or at least one millisecond; an absent entry decodes to NotFound.
   */
  lemma GetReplyRoundTrip(v: Option<VersionedValue>, post: string)
    requires v.Some? ==> Sendable("", v.value)
    ensures var r := GetReply(v);
            ParseReply(Encode(r) + post) == Ok(r, |Encode(r)|)
            && (DecodeGet(r) == NotFound <==> v.None?)
            && (v.Some? ==> (DecodeGet(r) == Found(v.value) <==> (v.value.ttl.Some? ==> v.value.ttl.value >= 1)))
  {
    GetReplyEncodable(v);
    ReplyRoundTrip(GetReply(v), post);
  }

  /** A replica's acknowledgement carries whether the key was live. */
  lemma AckRoundTrip(live: bool, post: string)
    ensures var r := Integer(if live then 1 else 0);
            ParseReply(Encode(r) + post) == Ok(r, |Encode(r)|) && (r.n != 0 <==> live)
  {
    ReplyRoundTrip(Integer(if live then 1 else 0), post);
  }
}
