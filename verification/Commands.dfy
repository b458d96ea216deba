/** The internal replication commands as the command parser sees them (protocol/parser.cpp). */
module Commands {
  import opened Options
  import opened Decimals
  import opened Words

  const MAX_TTL_MS := 10 * 365 * 24 * 3600 * 1000

  datatype Command =
    | ReplSet(key: string, value: string, version: nat, ttlMs: Option<nat>)
    | ReplDelete(key: string, version: nat)
    | ReplGet(key: string)
    | Invalid(error: string)
    | Other  // every verb this model does not look into

  function Upper(c: char): char {
    if 'a' <= c <= 'z' then (c as int - 32) as char else c
  }

  function ToUpper(s: string): string {
    seq(|s|, i requires 0 <= i < |s| => Upper(s[i]))
  }

  predicate IsTtlOption(opt: string) {
    opt == "EX" || opt == "PX" || opt == "TTL"
  }

  /** Seconds are multiplied in 64 bits, so the product may wrap. */
  function OptionMs(opt: string, n: nat): nat {
    if opt == "PX" then n else (n * 1000) % WORD
  }

  /** [EX seconds | PX milliseconds | TTL seconds]... from position i; the last one wins. */
  function SetOptions(args: seq<string>, i: nat, ttl: Option<nat>): Option<Option<nat>>
    requires i <= |args|
    decreases |args| - i
  {
    if i == |args| then Some(ttl)
    else
      var opt := ToUpper(args[i]);
      if IsTtlOption(opt) && i + 1 < |args| then
        var n := ParseUInt64(args[i + 1]);
        if n.None? || n.value == 0 || OptionMs(opt, n.value) > MAX_TTL_MS then None
        else SetOptions(args, i + 2, Some(OptionMs(opt, n.value)))
      else None
  }

  /** parse_set_options: the loop skips the value it has consumed. */
  method ParseSetOptions(args: seq<string>, from: nat) returns (ok: bool, ttlMs: Option<nat>)
    requires from <= |args|
    ensures ok <==> SetOptions(args, from, None).Some?
    ensures ok ==> SetOptions(args, from, None) == Some(ttlMs)
  {
    ttlMs := None;
    var i := from;
    while i < |args|
      invariant from <= i <= |args|
      invariant SetOptions(args, from, None) == SetOptions(args, i, ttlMs)
    {
      var opt := ToUpper(args[i]);
      if IsTtlOption(opt) && i + 1 < |args| {
        var n := ParseUInt64(args[i + 1]);
        if n.None? || n.value == 0 {
          return false, None;
        }
        var ms := OptionMs(opt, n.value);
        if ms > MAX_TTL_MS {
          return false, None;
        }
        ttlMs := Some(ms);
        i := i + 2;
      } else {
        return false, None;
      }
    }
    ok := true;
  }

  function ParseReplSet(args: seq<string>): Command
    requires |args| >= 1
  {
    if |args| < 4 then Invalid("arity")
    else
      var version := ParseUInt64(args[3]);
      if version.None? then Invalid("ERR invalid version")
      else
        var ttl := SetOptions(args, 4, None);
        if ttl.None? then Invalid("ERR syntax error")
        else ReplSet(args[1], args[2], version.value, ttl.value)
  }

  function ParseReplDelete(args: seq<string>): Command
    requires |args| >= 1
  {
    if |args| != 3 then Invalid("arity")
    else
      var version := ParseUInt64(args[2]);
      if version.None? then Invalid("ERR invalid version") else ReplDelete(args[1], version.value)
  }

  function ParseCommand(args: seq<string>): Command {
    if args == [] then Invalid("ERR empty command")
    else
      var verb := ToUpper(args[0]);
      if verb == "REPL_SET" then ParseReplSet(args)
      else if verb == "REPL_DEL" then ParseReplDelete(args)
      else if verb == "REPL_GET" then (if |args| != 2 then Invalid("arity") else ReplGet(args[1]))
      else Other
  }
}
