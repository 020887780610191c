/**
 * The server: its configuration from the command line, the command switch
 * of handleRead, and the handlers for SET, GET, KEYS and CONFIG GET. The
 * clock is the parameter `now`, the snapshot file the parameter `snapshot`
 * (None when the file does not exist), and a reply is the text written
 * back to the client (None when nothing is written).
 */
module Server {
  import opened Wrappers
  import opened JavaLang
  import opened Entry
  import opened Store
  import opened Resp
  import opened Rdb

  const DEFAULT_DIR: string := "."
  const DEFAULT_DBFILENAME: string := "dump.rdb"

  // ---------------------------------------------------------------------
  // setDatabaseConfig

  /**
   * The value after the last `flag` among the first n arguments that has an
   * argument after it, or None.
   */
  function LastFlagValue(args: seq<string>, flag: string, n: nat): Option<string>
    requires n <= |args|
  {
    if n == 0 then None
    else if args[n - 1] == flag && n < |args| then Some(args[n])
    else LastFlagValue(args, flag, n - 1)
  }

  /** Argument i is `flag` with an argument after it, and no later one among the first n is. */
  predicate IsLastFlag(args: seq<string>, flag: string, n: nat, i: int) {
    && 0 <= i < n && i + 1 < |args| && args[i] == flag
    && forall j :: i < j < n && j + 1 < |args| ==> args[j] != flag
  }

  /**
   * LastFlagValue finds nothing exactly when `flag` never occurs among the
   * first n arguments with an argument after it; otherwise it finds the
   * argument after the last such occurrence.
   */
  lemma {:induction false} LastFlagValueMeans(args: seq<string>, flag: string, n: nat)
    requires n <= |args|
    ensures LastFlagValue(args, flag, n).None? <==>
      forall i :: 0 <= i < n && i + 1 < |args| ==> args[i] != flag
    ensures forall i :: IsLastFlag(args, flag, n, i) ==> LastFlagValue(args, flag, n) == Some(args[i + 1])
  {
    if n > 0 {
      LastFlagValueMeans(args, flag, n - 1);
      forall i | IsLastFlag(args, flag, n, i)
        ensures LastFlagValue(args, flag, n) == Some(args[i + 1])
      {
        if i < n - 1 {
          assert !(args[n - 1] == flag && n < |args|);
          assert IsLastFlag(args, flag, n - 1, i);
        }
      }
    }
  }

  /** The configuration setDatabaseConfig leaves: the last occurrence of each flag wins, else the default. */
  function DatabaseConfigSpec(args: seq<string>): (string, string) {
    (LastFlagValue(args, "--dir", |args|).GetOr(DEFAULT_DIR),
     LastFlagValue(args, "--dbfilename", |args|).GetOr(DEFAULT_DBFILENAME))
  }

  /** setDatabaseConfig: one pass over the arguments, then the defaults for what is still null. */
  method DatabaseConfig(args: seq<string>) returns (dir: string, dbfilename: string)
    ensures (dir, dbfilename) == DatabaseConfigSpec(args)
  {
    var dirArg: Option<string> := None;
    var dbfilenameArg: Option<string> := None;
    for i := 0 to |args|
      invariant dirArg == LastFlagValue(args, "--dir", i)
      invariant dbfilenameArg == LastFlagValue(args, "--dbfilename", i)
    {
      if args[i] == "--dir" && i + 1 < |args| {
        dirArg := Some(args[i + 1]);
      }
      if args[i] == "--dbfilename" && i + 1 < |args| {
        dbfilenameArg := Some(args[i + 1]);
      }
    }
    dir := if dirArg.None? then DEFAULT_DIR else dirArg.value;
    dbfilename := if dbfilenameArg.None? then DEFAULT_DBFILENAME else dbfilenameArg.value;
  }

  /**
   * Without the flags the configuration is ".", "dump.rdb"; a later flag
   * overrides an earlier one; a flag with nothing after it is ignored.
   */
  lemma DatabaseConfigExamples(d1: string, d2: string, f: string)
    requires d1 != "--dir"
    ensures DatabaseConfigSpec([]) == (DEFAULT_DIR, DEFAULT_DBFILENAME)
    ensures DatabaseConfigSpec(["--dir", d1, "--dir", d2]).0 == d2
    ensures DatabaseConfigSpec(["--dir", d1, "--dbfilename", f]) == (d1, f)
    ensures DatabaseConfigSpec(["--dir"]) == (DEFAULT_DIR, DEFAULT_DBFILENAME)
  {
    assert "--dir" != "--dbfilename" by {
      assert |"--dir"| != |"--dbfilename"|;
    }
    var a := ["--dir", d1, "--dbfilename", f];
    LastFlagValueMeans(a, "--dir", 4);
    LastFlagValueMeans(a, "--dbfilename", 4);
    assert IsLastFlag(a, "--dir", 4, 0);
    assert IsLastFlag(a, "--dbfilename", 4, 2);
    var b := ["--dir", d1, "--dir", d2];
    LastFlagValueMeans(b, "--dir", 4);
    assert IsLastFlag(b, "--dir", 4, 2);
    var c := ["--dir"];
    LastFlagValueMeans(c, "--dir", 1);
    LastFlagValueMeans(c, "--dbfilename", 1);
  }

  // ---------------------------------------------------------------------
  // The command handlers, as functions of the tokens and the store

  /**
   * The expiry SET stores: now plus the fifth token in milliseconds when the
   * fourth token is "px" ignoring case, otherwise the never-expires sentinel.
   */
  function SetExpiry(tokens: seq<string>, now: Long): Result<Long> {
    if |tokens| >= 4 && EqualsIgnoreCase(tokens[3], "px") then
      if |tokens| < 5 then Err(IndexOutOfBounds)
      else
        match ParseLong(tokens[4])
        case None => Err(NumberFormat)
        case Some(ms) => Ok(WrapLong(now + ms))
    else Ok(NEVER_EXPIRES)
  }

  /** handleSetCommand: the reply and the store afterwards. */
  function SetCommand(tokens: seq<string>, m: StoreMap, now: Long): (Result<string>, StoreMap) {
    if |tokens| < 3 then (Err(IndexOutOfBounds), m)
    else
      match SetExpiry(tokens, now)
      case Err(e) => (Err(e), m)
      case Ok(expiryTime) => (Ok(OK_RESPONSE), Put(m, tokens[1], tokens[2], expiryTime))
  }

  /**
   * SET with a key and a value writes a fresh entry for that key, leaves
   * every other key as it was, and replies +OK; the entry expires only when
   * PX is given, at now plus its argument.
   */
  lemma SetCommandWrites(tokens: seq<string>, m: StoreMap, now: Long)
    requires |tokens| >= 3
    ensures var (r, m') := SetCommand(tokens, m, now);
      r.Ok? <==> SetExpiry(tokens, now).Ok?
    ensures var (r, m') := SetCommand(tokens, m, now);
      r.Ok? ==>
        && r.value == OK_RESPONSE && m'.Keys == m.Keys + {tokens[1]}
        && m'[tokens[1]] == ValueWithExpiry(tokens[2], SetExpiry(tokens, now).value)
        && forall k :: k in m && k != tokens[1] ==> m'[k] == m[k]
    ensures var (r, m') := SetCommand(tokens, m, now);
      r.Err? ==> m' == m
    ensures SetExpiry(tokens, now) == Ok(NEVER_EXPIRES) || (|tokens| >= 4 && Lower(tokens[3]) == "px")
  {
  }

  /** The spellings of the verbs the scenarios below send, lowered. */
  lemma LoweredSpellings()
    ensures Lower("SET") == "set" && Lower("GET") == "get" && Lower("px") == "px"
  {
    LowerCons('T', []);
    LowerCons('E', "T");
    LowerCons('G', "ET");
    LowerCons('S', "ET");
    LowerCons('x', []);
    LowerCons('p', "x");
    assert "GET" == ['G'] + "ET" && "SET" == ['S'] + "ET";
    assert "ET" == ['E'] + "T" && "T" == ['T'] + [];
    assert "px" == ['p'] + "x" && "x" == ['x'] + [];
  }

  /** The PX arguments the scenarios below send, parsed. */
  lemma ParsedArguments()
    ensures ParseLong("5000") == Some(5000) && ParseLong("soon") == None
  {
    ParseDecimalOfDecimal(5000, LONG_MIN, LONG_MAX);
    assert Decimal(5000) == "5000";
    assert !IsDigit("soon"[0]);
  }

  /** Without PX, SET stores the sentinel; with PX 5000 it stores now + 5000. */
  lemma SetExpiryCases(verb: string, k: string, v: string, px: string, now: Long)
    requires now + 5000 <= LONG_MAX
    requires Lower(px) == "px"
    ensures SetExpiry([verb, k, v], now) == Ok(NEVER_EXPIRES)
    ensures SetExpiry([verb, k, v, px, "5000"], now) == Ok(now + 5000)
    ensures SetExpiry([verb, k, v, px], now) == Err(IndexOutOfBounds)
    ensures SetExpiry([verb, k, v, px, "soon"], now) == Err(NumberFormat)
  {
    ParsedArguments();
    LowerIdempotent(px);
    LoweredSpellings();
  }

  /**
   * handleConfigGetCommand's list: only the two known settings are answered,
   * each by the name asked for and that setting's value.
   */
  function ConfigGetList(configKey: string, dir: string, dbfilename: string): (r: seq<string>)
    ensures r != [] <==> configKey == "dir" || configKey == "dbfilename"
    ensures r != [] ==> |r| == 2 && r[0] == configKey
    ensures r != [] ==> r[1] == (if r[0] == "dir" then dir else dbfilename)
  {
    if configKey == "dir" then ["dir", dir]
    else if configKey == "dbfilename" then ["dbfilename", dbfilename]
    else []
  }

  /**
   * The command switch of handleRead on the parsed tokens: the reply and the
   * store afterwards. The verb is lowercased; verbs it does not know, ECHO
   * without an argument and CONFIG without GET write nothing.
   */
  function Dispatch(tokens: seq<string>, m: StoreMap, now: Long, dir: string, dbfilename: string,
                    snapshot: Option<seq<Byte>>): (Result<Option<string>>, StoreMap)
  {
    if tokens == [] then (Ok(None), m)
    else
      var command := Lower(tokens[0]);
      if command == "echo" then
        (Ok(if |tokens| > 1 then Some(Bulk(tokens[1])) else None), m)
      else if command == "ping" then
        (Ok(Some(PONG_RESPONSE)), m)
      else if command == "set" then
        var (reply, m') := SetCommand(tokens, m, now);
        (if reply.Err? then Err(reply.error) else Ok(Some(reply.value)), m')
      else if command == "get" then
        if |tokens| < 2 then (Err(IndexOutOfBounds), m)
        else
          var (fromStore, m') := Lookup(m, tokens[1], now);
          if fromStore.Some? then (Ok(Some(EncodeStringAsResp(fromStore))), m')
          else
            match RdbLookup(Some(dir), Some(dbfilename), snapshot, tokens[1])
            case Err(e) => (Err(e), m')
            case Ok(fromFile) => (Ok(Some(EncodeStringAsResp(fromFile))), m')
      else if command == "keys" then
        match KeysReply(snapshot)
        case Err(e) => (Err(e), m)
        case Ok(reply) => (Ok(Some(reply)), m)
      else if command == "config" then
        if |tokens| > 1 && EqualsIgnoreCase(tokens[1], "get") then
          if |tokens| < 3 then (Err(IndexOutOfBounds), m)
          else (Ok(Some(ArrayReply(ConfigGetList(Lower(tokens[2]), dir, dbfilename)))), m)
        else (Ok(None), m)
      else (Ok(None), m)
  }

  /** One request as handleRead takes it: trimmed, tokenized, dispatched. */
  function HandleRequest(request: string, m: StoreMap, now: Long, dir: string, dbfilename: string,
                         snapshot: Option<seq<Byte>>): (Result<Option<string>>, StoreMap)
  {
    match ParseSpec(Trim(request))
    case Err(e) => (Err(e), m)
    case Ok(tokens) => Dispatch(tokens, m, now, dir, dbfilename, snapshot)
  }

  // ---------------------------------------------------------------------
  // What the switch promises

  /** The verb is matched ignoring case: lowering it first changes nothing. */
  lemma DispatchIgnoresVerbCase(tokens: seq<string>, m: StoreMap, now: Long, dir: string, dbfilename: string,
                                snapshot: Option<seq<Byte>>)
    requires tokens != []
    ensures Dispatch(tokens, m, now, dir, dbfilename, snapshot)
         == Dispatch([Lower(tokens[0])] + tokens[1..], m, now, dir, dbfilename, snapshot)
  {
    var t := [Lower(tokens[0])] + tokens[1..];
    var command := Lower(tokens[0]);
    assert Lower(t[0]) == command by {
      LowerIdempotent(tokens[0]);
    }
    assert |t| == |tokens| && t[1..] == tokens[1..];
    if command == "set" {
      assert SetCommand(t, m, now) == SetCommand(tokens, m, now) by {
        assert forall i :: 1 <= i < |t| ==> t[i] == tokens[i];
        assert SetExpiry(t, now) == SetExpiry(tokens, now);
      }
    } else if command == "get" || command == "echo" {
      if |t| > 1 { assert t[1] == tokens[1]; }
    } else if command == "config" {
      if |t| > 2 { assert t[1] == tokens[1] && t[2] == tokens[2]; }
      else if |t| > 1 { assert t[1] == tokens[1]; }
    }
  }

  /** PING replies +PONG whatever its arguments, and leaves the store alone. */
  lemma PingReplies(tokens: seq<string>, m: StoreMap, now: Long, dir: string, dbfilename: string,
                    snapshot: Option<seq<Byte>>)
    requires tokens != [] && Lower(tokens[0]) == "ping"
    ensures Dispatch(tokens, m, now, dir, dbfilename, snapshot) == (Ok(Some(PONG_RESPONSE)), m)
  {
  }

  /** ECHO replies its argument as a bulk string, the encoding of GET's replies, and nothing without one. */
  lemma EchoReplies(tokens: seq<string>, m: StoreMap, now: Long, dir: string, dbfilename: string,
                    snapshot: Option<seq<Byte>>)
    requires tokens != [] && Lower(tokens[0]) == "echo"
    ensures |tokens| == 1 ==> Dispatch(tokens, m, now, dir, dbfilename, snapshot) == (Ok(None), m)
    ensures |tokens| > 1 ==>
      Dispatch(tokens, m, now, dir, dbfilename, snapshot) == (Ok(Some(EncodeStringAsResp(Some(tokens[1])))), m)
      && ReadBulk(Dispatch(tokens, m, now, dir, dbfilename, snapshot).0.value.value) == Some(tokens[1])
  {
    if |tokens| > 1 {
      ReadBulkOfBulk(tokens[1]);
    }
  }

  /** A verb the switch does not know writes nothing and changes nothing. */
  lemma UnknownVerbIgnored(tokens: seq<string>, m: StoreMap, now: Long, dir: string, dbfilename: string,
                           snapshot: Option<seq<Byte>>)
    requires tokens != []
    requires Lower(tokens[0]) !in {"echo", "ping", "set", "get", "keys", "config"}
    ensures Dispatch(tokens, m, now, dir, dbfilename, snapshot) == (Ok(None), m)
  {
  }

  /** Only SET and GET change the store: SET by one write, GET by removing the key it reads. */
  lemma DispatchStoreEffect(tokens: seq<string>, m: StoreMap, now: Long, dir: string, dbfilename: string,
                            snapshot: Option<seq<Byte>>)
    ensures var m' := Dispatch(tokens, m, now, dir, dbfilename, snapshot).1;
      || m' == m
      || (Lower(tokens[0]) == "set" && |tokens| >= 3 && m' == Put(m, tokens[1], tokens[2], SetExpiry(tokens, now).value))
      || (Lower(tokens[0]) == "get" && |tokens| >= 2 && m' == m - {tokens[1]})
  {
  }

  /**
   * GET answers from the store when the store has a live value, and reads
   * the snapshot only when the store gives null; the reply is always the
   * bulk encoding of the answer, or null.
   */
  lemma GetPrefersStore(key: string, rest: seq<string>, verb: string, m: StoreMap, now: Long, dir: string, dbfilename: string,
                        snapshot: Option<seq<Byte>>)
    requires Lower(verb) == "get"
    ensures var (r, m') := Dispatch([verb, key] + rest, m, now, dir, dbfilename, snapshot);
      m' == Lookup(m, key, now).1
      && (Lookup(m, key, now).0.Some? ==> r == Ok(Some(Bulk(Lookup(m, key, now).0.value))))
      && (Lookup(m, key, now).0.None? ==>
            match RdbLookup(Some(dir), Some(dbfilename), snapshot, key)
            case Ok(v) => r == Ok(Some(EncodeStringAsResp(v)))
            case Err(e) => r == Err(e))
  {
    assert ([verb, key] + rest)[1] == key;
  }

  /** GET of an absent key with no snapshot file replies the null bulk string. */
  lemma GetMissingIsNull(verb: string, key: string, m: StoreMap, now: Long, dir: string, dbfilename: string)
    requires Lower(verb) == "get" && key !in m
    ensures Dispatch([verb, key], m, now, dir, dbfilename, None) == (Ok(Some(NULL_RESPONSE)), m)
  {
  }

  /** CONFIG GET dir / dbfilename reply [name, value]; any other parameter replies an empty array. */
  lemma ConfigGetReplies(verb: string, sub: string, param: string, m: StoreMap, now: Long, dir: string, dbfilename: string,
                         snapshot: Option<seq<Byte>>)
    requires Lower(verb) == "config" && EqualsIgnoreCase(sub, "get")
    ensures Lower(param) == "dir" ==>
      Dispatch([verb, sub, param], m, now, dir, dbfilename, snapshot) == (Ok(Some(ArrayReply(["dir", dir]))), m)
    ensures Lower(param) == "dbfilename" ==>
      Dispatch([verb, sub, param], m, now, dir, dbfilename, snapshot) == (Ok(Some(ArrayReply(["dbfilename", dbfilename]))), m)
    ensures Lower(param) != "dir" && Lower(param) != "dbfilename" ==>
      Dispatch([verb, sub, param], m, now, dir, dbfilename, snapshot) == (Ok(Some("*0\r\n")), m)
    ensures Dispatch([verb, sub], m, now, dir, dbfilename, snapshot) == (Err(IndexOutOfBounds), m)
  {
    ArrayReplyShapes("");
  }

  /**
   * A SET then a GET of the same key, each sent as an array reply would be:
   * the GET replies the value while the entry is live.
   */
  lemma SetThenGet(key: string, value: string, m: StoreMap, t1: Long, t2: Long, dir: string, dbfilename: string,
                   snapshot: Option<seq<Byte>>)
    requires WireSafe(["SET", key, value]) && WireSafe(["GET", key])
    ensures var (r1, m1) := HandleRequest(ArrayReply(["SET", key, value]), m, t1, dir, dbfilename, snapshot);
      r1 == Ok(Some(OK_RESPONSE))
      && HandleRequest(ArrayReply(["GET", key]), m1, t2, dir, dbfilename, snapshot) == (Ok(Some(Bulk(value))), m1)
  {
    var m1 := Put(m, key, value, NEVER_EXPIRES);
    assert HandleRequest(ArrayReply(["SET", key, value]), m, t1, dir, dbfilename, snapshot)
        == Dispatch(["SET", key, value], m, t1, dir, dbfilename, snapshot) by {
      RoundTrip(["SET", key, value]);
    }
    assert Dispatch(["SET", key, value], m, t1, dir, dbfilename, snapshot) == (Ok(Some(OK_RESPONSE)), m1) by {
      LoweredSpellings();
      SetExpiryCases("SET", key, value, "px", 0);
    }
    assert HandleRequest(ArrayReply(["GET", key]), m1, t2, dir, dbfilename, snapshot)
        == Dispatch(["GET", key], m1, t2, dir, dbfilename, snapshot) by {
      RoundTrip(["GET", key]);
    }
    assert Dispatch(["GET", key], m1, t2, dir, dbfilename, snapshot) == (Ok(Some(Bulk(value))), m1) by {
      LoweredSpellings();
      assert ["GET", key] + [] == ["GET", key];
      GetPrefersStore(key, [], "GET", m1, t2, dir, dbfilename, snapshot);
      PutNeverExpires(m, key, value, t2);
    }
  }

  /**
   * SET with PX 5000 at t1: a GET at or before t1 + 5000 sees the value; a
   * later GET removes the entry and, with no snapshot file, replies null.
   */
  lemma SetPxThenGet(m: StoreMap, t1: Long, t2: Long, dir: string, dbfilename: string)
    requires 0 <= t1 && t1 + 5000 <= LONG_MAX
    ensures var (r1, m1) := Dispatch(["SET", "test123", "gonsnoig", "px", "5000"], m, t1, dir, dbfilename, None);
      r1 == Ok(Some(OK_RESPONSE))
      && (t2 <= t1 + 5000 ==>
            Dispatch(["GET", "test123"], m1, t2, dir, dbfilename, None) == (Ok(Some(Bulk("gonsnoig"))), m1))
      && (t2 > t1 + 5000 ==>
            Dispatch(["GET", "test123"], m1, t2, dir, dbfilename, None) == (Ok(Some(NULL_RESPONSE)), m1 - {"test123"}))
  {
    LoweredSpellings();
    SetExpiryCases("SET", "test123", "gonsnoig", "px", t1);
    var m1 := Put(m, "test123", "gonsnoig", t1 + 5000);
    assert Dispatch(["SET", "test123", "gonsnoig", "px", "5000"], m, t1, dir, dbfilename, None).1 == m1;
    assert IsExpired(m1["test123"], t2) <==> t2 > t1 + 5000;
  }

  // ---------------------------------------------------------------------
  // The server's state and handlers as the source writes them

  class Server {
    /** storeSet */
    var storeSet: StoreMap
    var dir: string
    var dbfilename: string

    /** The state after setDatabaseConfig(args), with an empty store. */
    constructor (args: seq<string>)
      ensures storeSet == map[] && (dir, dbfilename) == DatabaseConfigSpec(args)
    {
      var d, f := DatabaseConfig(args);
      storeSet := map[];
      dir := d;
      dbfilename := f;
    }

    /** getValueWithExpiryCheck(key) */
    method GetValueWithExpiryCheck(key: string, now: Long) returns (value: Option<string>)
      modifies this
      ensures (value, storeSet) == Lookup(old(storeSet), key, now)
      ensures dir == old(dir) && dbfilename == old(dbfilename)
    {
      if key !in storeSet {
        return None;
      }
      var valueWithExpiry := storeSet[key];
      if valueWithExpiry.expiryTime != NEVER_EXPIRES && now > valueWithExpiry.expiryTime {
        storeSet := storeSet - {key};
        return None;
      }
      return Some(valueWithExpiry.value);
    }

    /** handleSetCommand(parsedElements): the reply it writes, or the fault it raises. */
    method HandleSetCommand(parsedElements: seq<string>, now: Long) returns (r: Result<string>)
      modifies this
      ensures (r, storeSet) == SetCommand(parsedElements, old(storeSet), now)
      ensures dir == old(dir) && dbfilename == old(dbfilename)
    {
      if |parsedElements| < 3 {
        return Err(IndexOutOfBounds);
      }
      var key := parsedElements[1];
      var value := parsedElements[2];
      var expiryTime: Long := NEVER_EXPIRES;
      if |parsedElements| >= 4 && EqualsIgnoreCase(parsedElements[3], "px") {
        if |parsedElements| < 5 {
          return Err(IndexOutOfBounds);
        }
        var ms := ParseLong(parsedElements[4]);
        if ms.None? {
          return Err(NumberFormat);
        }
        expiryTime := WrapLong(now + ms.value);
      }
      storeSet := storeSet[key := ValueWithExpiry(value, expiryTime)];
      return Ok(OK_RESPONSE);
    }

    /** handleConfigGetCommand(configKey): the array reply it writes. */
    method HandleConfigGetCommand(configKey: string) returns (reply: string)
      ensures reply == ArrayReply(ConfigGetList(configKey, dir, dbfilename))
    {
      var configList: seq<string> := [];
      if configKey == "dir" {
        configList := ["dir", dir];
      } else if configKey == "dbfilename" {
        configList := ["dbfilename", dbfilename];
      }
      reply := EncodeStringAsRespArray(configList);
    }

    /** handleRead on one decoded request: the reply written, if any, or the fault raised. */
    method HandleRead(request: string, now: Long, snapshot: Option<seq<Byte>>) returns (r: Result<Option<string>>)
      modifies this
      ensures (r, storeSet) == HandleRequest(request, old(storeSet), now, dir, dbfilename, snapshot)
      ensures dir == old(dir) && dbfilename == old(dbfilename)
    {
      var parsed := ParseResp(Trim(request));
      if parsed.Err? {
        return Err(parsed.error);
      }
      var parsedElements := parsed.value;
      if parsedElements == [] {
        return Ok(None);
      }
      var command := Lower(parsedElements[0]);
      if command == "echo" {
        if |parsedElements| > 1 {
          var echoArgument := parsedElements[1];
          r := Ok(Some("$" + Decimal(|echoArgument|) + CRLF + echoArgument + CRLF));
        } else {
          r := Ok(None);
        }
      } else if command == "ping" {
        r := Ok(Some(PONG_RESPONSE));
      } else if command == "set" {
        var reply := HandleSetCommand(parsedElements, now);
        r := if reply.Err? then Err(reply.error) else Ok(Some(reply.value));
      } else if command == "get" {
        if |parsedElements| < 2 {
          return Err(IndexOutOfBounds);
        }
        var userGivenKey := parsedElements[1];
        var valueFromStore := GetValueWithExpiryCheck(userGivenKey, now);
        if valueFromStore.None? {
          var fromFile := ReadValueFromRdb(Some(dir), Some(dbfilename), snapshot, userGivenKey);
          if fromFile.Err? {
            return Err(fromFile.error);
          }
          valueFromStore := fromFile.value;
        }
        r := Ok(Some(EncodeStringAsResp(valueFromStore)));
      } else if command == "keys" {
        var reply := HandleKeysCommand(snapshot);
        r := if reply.Err? then Err(reply.error) else Ok(Some(reply.value));
      } else if command == "config" {
        if |parsedElements| > 1 && EqualsIgnoreCase(parsedElements[1], "get") {
          if |parsedElements| < 3 {
            return Err(IndexOutOfBounds);
          }
          var reply := HandleConfigGetCommand(Lower(parsedElements[2]));
          r := Ok(Some(reply));
        } else {
          r := Ok(None);
        }
      } else {
        r := Ok(None);
      }
    }
  }
}
