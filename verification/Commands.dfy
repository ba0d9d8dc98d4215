/** Commands, their decoding from frames and their re-encoding for the log (`src/cmd/mod.rs`). */
module Commands {
  import opened Base
  import opened Frames
  import Parser
  import Utf8

  /** A deadline in milliseconds (`ExpireAt`, a u128). */
  type Millis = nat

  const MAX_EXPIRE_AT_MS: Millis := I64_MAX
  const MILLIS_PER_SECOND: nat := 1000

  datatype Command =
    | Ping(message: Option<Bytes>)
    | Echo(echo: Bytes)
    | Get(key: Bytes)
    | Set(key: Bytes, value: Bytes, expiresAt: Option<Millis>)
    | Del(keys: seq<Bytes>)
    | Exists(keys: seq<Bytes>)
    | Incr(key: Bytes)
    | Decr(key: Bytes)
    | IncrBy(key: Bytes, n: int)
    | DecrBy(key: Bytes, n: int)
    | Append(key: Bytes, value: Bytes)
    | Strlen(key: Bytes)
    | MGet(keys: seq<Bytes>)
    | MSet(pairs: seq<(Bytes, Bytes)>)
    | Expire(key: Bytes, deadline: Millis)
    | PExpire(key: Bytes, deadline: Millis)
    | PExpireAt(key: Bytes, deadline: Millis)
    | Ttl(key: Bytes)
    | PTtl(key: Bytes)
    | Persist(key: Bytes)
    | LPush(key: Bytes, values: seq<Bytes>)
    | RPush(key: Bytes, values: seq<Bytes>)
    | LPop(key: Bytes, count: Option<nat>)
    | RPop(key: Bytes, count: Option<nat>)
    | LRange(key: Bytes, start: int, stop: int)
    | LLen(key: Bytes)
    | LIndex(key: Bytes, idx: int)
    | HSet(key: Bytes, fields: seq<(Bytes, Bytes)>)
    | HGet(key: Bytes, field: Bytes)
    | HDel(key: Bytes, names: seq<Bytes>)
    | HKeys(key: Bytes)
    | HVals(key: Bytes)
    | HGetAll(key: Bytes)
    | HExists(key: Bytes, field: Bytes)
    | HLen(key: Bytes)
    | HIncrBy(key: Bytes, field: Bytes, n: int)
    | Subscribe(channels: seq<Bytes>)
    | Unsubscribe(some: Option<seq<Bytes>>)
    | Publish(channel: Bytes, payload: Bytes)
    | Info(section: Option<Bytes>)
    | BgRewriteAof
    | Unknown(name: Bytes)
  {
    predicate IsWrite() {
      match this
      case Set(_, _, _) => true
      case Del(_) => true
      case Incr(_) => true
      case Decr(_) => true
      case IncrBy(_, _) => true
      case DecrBy(_, _) => true
      case Append(_, _) => true
      case MSet(_) => true
      case Expire(_, _) => true
      case PExpire(_, _) => true
      case PExpireAt(_, _) => true
      case Persist(_) => true
      case LPush(_, _) => true
      case RPush(_, _) => true
      case LPop(_, _) => true
      case RPop(_, _) => true
      case HSet(_, _) => true
      case HDel(_, _) => true
      case HIncrBy(_, _, _) => true
      case _ => false
    }

    /** The keys a write may change. */
    function MutatedKeys(): seq<Bytes> {
      match this
      case Del(keys) => keys
      case MSet(pairs) => Firsts(pairs)
      case Set(key, _, _) => [key]
      case Incr(key) => [key]
      case Decr(key) => [key]
      case IncrBy(key, _) => [key]
      case DecrBy(key, _) => [key]
      case Append(key, _) => [key]
      case Expire(key, _) => [key]
      case PExpire(key, _) => [key]
      case PExpireAt(key, _) => [key]
      case Persist(key) => [key]
      case LPush(key, _) => [key]
      case RPush(key, _) => [key]
      case LPop(key, _) => [key]
      case RPop(key, _) => [key]
      case HSet(key, _) => [key]
      case HDel(key, _) => [key]
      case HIncrBy(key, _, _) => [key]
      case _ => []
    }

    /** The request that is logged for a write; `now` is the clock when it is built. */
    function AofParts(now: Millis): Option<seq<Bytes>> {
      match this
      case Set(key, value, expiresAt) => Some(["SET", key, value] + SetExpiry(expiresAt, now))
      case Del(keys) => Some(["DEL"] + keys)
      case Incr(key) => Some(["INCR", key])
      case Decr(key) => Some(["DECR", key])
      case IncrBy(key, n) => Some(["INCRBY", key, DecInt(n)])
      case DecrBy(key, n) => Some(["DECRBY", key, DecInt(n)])
      case Append(key, value) => Some(["APPEND", key, value])
      case MSet(pairs) => Some(["MSET"] + Unpair(pairs))
      case Expire(key, deadline) => Some(["PEXPIREAT", key, Dec(deadline)])
      case PExpire(key, deadline) => Some(["PEXPIREAT", key, Dec(deadline)])
      case PExpireAt(key, deadline) => Some(["PEXPIREAT", key, Dec(deadline)])
      case Persist(key) => Some(["PERSIST", key])
      case LPush(key, values) => Some(["LPUSH", key] + values)
      case RPush(key, values) => Some(["RPUSH", key] + values)
      case LPop(key, count) => Some(["LPOP", key] + Counted(count))
      case RPop(key, count) => Some(["RPOP", key] + Counted(count))
      case HSet(key, fields) => Some(["HSET", key] + Unpair(fields))
      case HDel(key, names) => Some(["HDEL", key] + names)
      case HIncrBy(key, field, n) => Some(["HINCRBY", key, field, DecInt(n)])
      case _ => None
    }

    function AofFrame(now: Millis): Option<Frame> {
      var parts :- AofParts(now);
      Some(Request(parts))
    }

    /** All three expiry commands are logged as the absolute one. */
    function Logged(): Command {
      match this
      case Expire(key, deadline) => PExpireAt(key, deadline)
      case PExpire(key, deadline) => PExpireAt(key, deadline)
      case _ => this
    }

    /** The deadline a write carries. */
    function Deadline(): Option<Millis> {
      match this
      case Set(_, _, expiresAt) => expiresAt
      case Expire(_, deadline) => Some(deadline)
      case PExpire(_, deadline) => Some(deadline)
      case PExpireAt(_, deadline) => Some(deadline)
      case _ => None
    }
  }

  /** A request as it travels: an array of bulk strings. */
  function Request(parts: seq<Bytes>): Frame {
    Array(Parser.Bulks(parts))
  }

  function Firsts(pairs: seq<(Bytes, Bytes)>): (r: seq<Bytes>)
    ensures |r| == |pairs| && forall i :: 0 <= i < |pairs| ==> r[i] == pairs[i].0
  {
    seq(|pairs|, i requires 0 <= i < |pairs| => pairs[i].0)
  }

  function Unpair(pairs: seq<(Bytes, Bytes)>): (r: seq<Bytes>)
    ensures |r| == 2 * |pairs|
  {
    if pairs == [] then [] else [pairs[0].0, pairs[0].1] + Unpair(pairs[1..])
  }

  function Counted(count: Option<nat>): seq<Bytes> {
    if count.Some? then [Dec(count.value)] else []
  }

  // ---- deadlines ----

  /** `relative_millis_for_aof`: what is left until the deadline, at least one millisecond. */
  function RelativeMillis(deadline: Millis, now: Millis): Millis {
    if deadline <= now then 1
    else if deadline - now > MAX_EXPIRE_AT_MS then MAX_EXPIRE_AT_MS
    else deadline - now
  }

  function SetExpiry(expiresAt: Option<Millis>, now: Millis): seq<Bytes> {
    match expiresAt
    case None => []
    case Some(deadline) =>
      if deadline <= MAX_EXPIRE_AT_MS then ["PXAT", Dec(deadline)]
      else ["PX", Dec(RelativeMillis(deadline, now))]
  }

  datatype ParseError =
    | NotArray | Empty | NotBulk(index: nat) | Arity | BadName | NotInt | InvalidExpireTime
    | OutOfRangePositive | Syntax

  function DurationMillis(n: nat, ms: bool): Result<Millis, ParseError> {
    if ms then Ok(n)
    else if n * MILLIS_PER_SECOND <= U128_MAX then Ok(n * MILLIS_PER_SECOND)
    else Err(InvalidExpireTime)
  }

  function SetRelativeDeadline(n: int, ms: bool, now: Millis): Result<Millis, ParseError> {
    if n <= 0 then Err(InvalidExpireTime)
    else
      var delta :- DurationMillis(n, ms);
      if delta > MAX_EXPIRE_AT_MS || now + delta > U128_MAX then Err(InvalidExpireTime)
      else Ok(now + delta)
  }

  function ExpireRelativeDeadline(n: int, ms: bool, now: Millis): (r: Result<Millis, ParseError>)
    ensures r.Ok? ==> r.value <= MAX_EXPIRE_AT_MS
  {
    if n <= 0 then Ok(0)
    else
      var delta :- DurationMillis(n, ms);
      if now + delta > U128_MAX || now + delta > MAX_EXPIRE_AT_MS then Err(InvalidExpireTime)
      else Ok(now + delta)
  }

  function SetAbsoluteDeadline(n: int, ms: bool): Result<Millis, ParseError> {
    if n <= 0 then Err(InvalidExpireTime) else AbsoluteDeadline(n, ms)
  }

  function ExpireAbsoluteDeadline(n: int, ms: bool): (r: Result<Millis, ParseError>)
    ensures r.Ok? ==> r.value <= MAX_EXPIRE_AT_MS
  {
    if n <= 0 then Ok(0) else AbsoluteDeadline(n, ms)
  }

  function AbsoluteDeadline(n: nat, ms: bool): (r: Result<Millis, ParseError>)
    ensures r.Ok? ==> r.value <= MAX_EXPIRE_AT_MS
  {
    var deadline :- DurationMillis(n, ms);
    if deadline <= MAX_EXPIRE_AT_MS then Ok(deadline) else Err(InvalidExpireTime)
  }

  // ---- names ----

  function UpperChar(c: char): char {
    if 'a' <= c <= 'z' then c - 'a' + 'A' else c
  }

  function Upper(s: Bytes): Bytes {
    seq(|s|, i requires 0 <= i < |s| => UpperChar(s[i]))
  }

  function LowerChar(c: char): char {
    if 'A' <= c <= 'Z' then c - 'A' + 'a' else c
  }

  function Lower(s: Bytes): Bytes {
    seq(|s|, i requires 0 <= i < |s| => LowerChar(s[i]))
  }

  datatype Verb =
    | PING | ECHO | GET | SET | DEL | EXISTS | INCR | DECR | INCRBY | DECRBY
    | APPEND | STRLEN | MGET | MSET | EXPIRE | PEXPIRE | EXPIREAT | PEXPIREAT | TTL | PTTL
    | PERSIST | LPUSH | RPUSH | LPOP | RPOP | LRANGE | LLEN | LINDEX | HSET | HGET
    | HDEL | HKEYS | HVALS | HGETALL | HEXISTS | HLEN | HINCRBY | SUBSCRIBE | UNSUBSCRIBE | PUBLISH
    | INFO | BGREWRITEAOF | OTHER

  /** The command table, searched by length first. */
  function VerbOf(name: Bytes): Verb {
    match |name|
    case 3 =>
      if name == "GET" then GET
      else if name == "SET" then SET
      else if name == "DEL" then DEL
      else if name == "TTL" then TTL
      else OTHER
    case 4 =>
      if name == "PING" then PING
      else if name == "ECHO" then ECHO
      else if name == "INCR" then INCR
      else if name == "DECR" then DECR
      else if name == "MGET" then MGET
      else if name == "MSET" then MSET
      else if name == "PTTL" then PTTL
      else if name == "LPOP" then LPOP
      else if name == "RPOP" then RPOP
      else if name == "LLEN" then LLEN
      else if name == "HSET" then HSET
      else if name == "HGET" then HGET
      else if name == "HDEL" then HDEL
      else if name == "HLEN" then HLEN
      else if name == "INFO" then INFO
      else OTHER
    case 5 =>
      if name == "LPUSH" then LPUSH
      else if name == "RPUSH" then RPUSH
      else if name == "HKEYS" then HKEYS
      else if name == "HVALS" then HVALS
      else OTHER
    case 6 =>
      if name == "EXISTS" then EXISTS
      else if name == "INCRBY" then INCRBY
      else if name == "DECRBY" then DECRBY
      else if name == "APPEND" then APPEND
      else if name == "STRLEN" then STRLEN
      else if name == "EXPIRE" then EXPIRE
      else if name == "LRANGE" then LRANGE
      else if name == "LINDEX" then LINDEX
      else OTHER
    case 7 =>
      if name == "PEXPIRE" then PEXPIRE
      else if name == "PERSIST" then PERSIST
      else if name == "HGETALL" then HGETALL
      else if name == "HEXISTS" then HEXISTS
      else if name == "HINCRBY" then HINCRBY
      else if name == "PUBLISH" then PUBLISH
      else OTHER
    case 8 =>
      if name == "EXPIREAT" then EXPIREAT
      else OTHER
    case 9 =>
      if name == "PEXPIREAT" then PEXPIREAT
      else if name == "SUBSCRIBE" then SUBSCRIBE
      else OTHER
    case 11 =>
      if name == "UNSUBSCRIBE" then UNSUBSCRIBE
      else OTHER
    case 12 =>
      if name == "BGREWRITEAOF" then BGREWRITEAOF
      else OTHER
    case _ => OTHER
  }

  function VerbName(verb: Verb): Bytes {
    match verb
    case PING => "PING"
    case ECHO => "ECHO"
    case GET => "GET"
    case SET => "SET"
    case DEL => "DEL"
    case EXISTS => "EXISTS"
    case INCR => "INCR"
    case DECR => "DECR"
    case INCRBY => "INCRBY"
    case DECRBY => "DECRBY"
    case APPEND => "APPEND"
    case STRLEN => "STRLEN"
    case MGET => "MGET"
    case MSET => "MSET"
    case EXPIRE => "EXPIRE"
    case PEXPIRE => "PEXPIRE"
    case EXPIREAT => "EXPIREAT"
    case PEXPIREAT => "PEXPIREAT"
    case TTL => "TTL"
    case PTTL => "PTTL"
    case PERSIST => "PERSIST"
    case LPUSH => "LPUSH"
    case RPUSH => "RPUSH"
    case LPOP => "LPOP"
    case RPOP => "RPOP"
    case LRANGE => "LRANGE"
    case LLEN => "LLEN"
    case LINDEX => "LINDEX"
    case HSET => "HSET"
    case HGET => "HGET"
    case HDEL => "HDEL"
    case HKEYS => "HKEYS"
    case HVALS => "HVALS"
    case HGETALL => "HGETALL"
    case HEXISTS => "HEXISTS"
    case HLEN => "HLEN"
    case HINCRBY => "HINCRBY"
    case SUBSCRIBE => "SUBSCRIBE"
    case UNSUBSCRIBE => "UNSUBSCRIBE"
    case PUBLISH => "PUBLISH"
    case INFO => "INFO"
    case BGREWRITEAOF => "BGREWRITEAOF"
    case OTHER => ""
  }

  // ---- decoding ----

  function FromFrame(f: Frame, now: Millis): Result<Command, ParseError> {
    if !f.Array? then Err(NotArray)
    else if f.items == [] then Err(Empty)
    else if !f.items[0].Bulk? then Err(NotBulk(0))
    else if !Utf8.Valid(f.items[0].data) then Err(BadName)
    else
      var rest :- ExpectBulks(f.items, 1);
      DecodeNamed(Upper(f.items[0].data), rest, now)
  }

  function ExpectBulks(items: seq<Frame>, i: nat): (r: Result<seq<Bytes>, ParseError>)
    requires i <= |items|
    decreases |items| - i
  {
    if i == |items| then Ok([])
    else if !items[i].Bulk? then Err(NotBulk(i))
    else
      var rest :- ExpectBulks(items, i + 1);
      Ok([items[i].data] + rest)
  }

  function DecodeNamed(name: Bytes, args: seq<Bytes>, now: Millis): Result<Command, ParseError> {
    if VerbOf(name) == OTHER then Ok(Unknown(name)) else Decode(VerbOf(name), args, now)
  }

  function Decode(verb: Verb, args: seq<Bytes>, now: Millis): Result<Command, ParseError>
    requires verb != OTHER
  {
    var n := |args|;
    match verb
    case PING => if n == 0 then Ok(Ping(None)) else if n == 1 then Ok(Ping(Some(args[0]))) else Err(Arity)
    case ECHO => if n == 1 then Ok(Echo(args[0])) else Err(Arity)
    case GET => if n == 1 then Ok(Get(args[0])) else Err(Arity)
    case SET => DecodeSet(args, now)
    case DEL => if n == 0 then Err(Arity) else Ok(Del(args))
    case EXISTS => if n == 0 then Err(Arity) else Ok(Exists(args))
    case INCR => if n == 1 then Ok(Incr(args[0])) else Err(Arity)
    case DECR => if n == 1 then Ok(Decr(args[0])) else Err(Arity)
    case INCRBY =>
      if n != 2 then Err(Arity) else
      var delta :- DecodeInt(args[1]);
      Ok(IncrBy(args[0], delta))
    case DECRBY =>
      if n != 2 then Err(Arity) else
      var delta :- DecodeInt(args[1]);
      Ok(DecrBy(args[0], delta))
    case APPEND => if n == 2 then Ok(Append(args[0], args[1])) else Err(Arity)
    case STRLEN => if n == 1 then Ok(Strlen(args[0])) else Err(Arity)
    case MGET => if n == 0 then Err(Arity) else Ok(MGet(args))
    case MSET => if n == 0 || n % 2 != 0 then Err(Arity) else Ok(MSet(PairUp(args)))
    case EXPIRE =>
      if n != 2 then Err(Arity) else
      var ttl :- DecodeInt(args[1]);
      var deadline :- ExpireRelativeDeadline(ttl, false, now);
      Ok(Expire(args[0], deadline))
    case PEXPIRE =>
      if n != 2 then Err(Arity) else
      var ttl :- DecodeInt(args[1]);
      var deadline :- ExpireRelativeDeadline(ttl, true, now);
      Ok(PExpire(args[0], deadline))
    case EXPIREAT =>
      if n != 2 then Err(Arity) else
      var at :- DecodeInt(args[1]);
      var deadline :- ExpireAbsoluteDeadline(at, false);
      Ok(PExpireAt(args[0], deadline))
    case PEXPIREAT =>
      if n != 2 then Err(Arity) else
      var at :- DecodeInt(args[1]);
      var deadline :- ExpireAbsoluteDeadline(at, true);
      Ok(PExpireAt(args[0], deadline))
    case TTL => if n == 1 then Ok(Ttl(args[0])) else Err(Arity)
    case PTTL => if n == 1 then Ok(PTtl(args[0])) else Err(Arity)
    case PERSIST => if n == 1 then Ok(Persist(args[0])) else Err(Arity)
    case LPUSH => if n < 2 then Err(Arity) else Ok(LPush(args[0], args[1..]))
    case RPUSH => if n < 2 then Err(Arity) else Ok(RPush(args[0], args[1..]))
    case LPOP =>
      if n != 1 && n != 2 then Err(Arity) else
      var count :- DecodeCount(args);
      Ok(LPop(args[0], count))
    case RPOP =>
      if n != 1 && n != 2 then Err(Arity) else
      var count :- DecodeCount(args);
      Ok(RPop(args[0], count))
    case LRANGE =>
      if n != 3 then Err(Arity) else
      var start :- DecodeInt(args[1]);
      var stop :- DecodeInt(args[2]);
      Ok(LRange(args[0], start, stop))
    case LLEN => if n == 1 then Ok(LLen(args[0])) else Err(Arity)
    case LINDEX =>
      if n != 2 then Err(Arity) else
      var idx :- DecodeInt(args[1]);
      Ok(LIndex(args[0], idx))
    case HSET => if n < 3 || (n - 1) % 2 != 0 then Err(Arity) else Ok(HSet(args[0], PairUp(args[1..])))
    case HGET => if n == 2 then Ok(HGet(args[0], args[1])) else Err(Arity)
    case HDEL => if n < 2 then Err(Arity) else Ok(HDel(args[0], args[1..]))
    case HKEYS => if n == 1 then Ok(HKeys(args[0])) else Err(Arity)
    case HVALS => if n == 1 then Ok(HVals(args[0])) else Err(Arity)
    case HGETALL => if n == 1 then Ok(HGetAll(args[0])) else Err(Arity)
    case HEXISTS => if n == 2 then Ok(HExists(args[0], args[1])) else Err(Arity)
    case HLEN => if n == 1 then Ok(HLen(args[0])) else Err(Arity)
    case HINCRBY =>
      if n != 3 then Err(Arity) else
      var delta :- DecodeInt(args[2]);
      Ok(HIncrBy(args[0], args[1], delta))
    case SUBSCRIBE => if n == 0 then Err(Arity) else Ok(Subscribe(args))
    case UNSUBSCRIBE => Ok(Unsubscribe(if n == 0 then None else Some(args)))
    case PUBLISH => if n == 2 then Ok(Publish(args[0], args[1])) else Err(Arity)
    case INFO =>
      if n == 0 then Ok(Info(None))
      else if n != 1 then Err(Arity)
      else if !Utf8.Valid(args[0]) then Err(Syntax)
      else Ok(Info(Some(Lower(args[0]))))
    case BGREWRITEAOF => if n == 0 then Ok(BgRewriteAof) else Err(Arity)
  }

  /** `parse_i64`: bytes that are not UTF-8 are not digits either. */
  function DecodeInt(arg: Bytes): (r: Result<int, ParseError>)
    ensures r.Ok? ==> IsI64(r.value)
  {
    match ParseI64(arg)
    case Some(n) => Ok(n)
    case None => Err(NotInt)
  }

  function DecodeCount(args: seq<Bytes>): (r: Result<Option<nat>, ParseError>)
    requires 1 <= |args| <= 2
    ensures r.Ok? && r.value.Some? ==> r.value.value <= I64_MAX
  {
    if |args| == 1 then Ok(None)
    else
      var count :- DecodeInt(args[1]);
      if count < 0 then Err(OutOfRangePositive) else Ok(Some(count))
  }

  function PairUp(args: seq<Bytes>): (r: seq<(Bytes, Bytes)>)
    ensures |r| == |args| / 2
  {
    if |args| < 2 then [] else [(args[0], args[1])] + PairUp(args[2..])
  }

  function DecodeSet(args: seq<Bytes>, now: Millis): (r: Result<Command, ParseError>)
    ensures r.Ok? ==> r.value.Set?
  {
    if |args| < 2 then Err(Arity)
    else
      var expiresAt :- SetOptions(args, 2, None, now);
      Ok(Set(args[0], args[1], expiresAt))
  }

  /** The options of SET from position `i` on; only one expiry may be given. */
  function SetOptions(args: seq<Bytes>, i: nat, seen: Option<Millis>, now: Millis): Result<Option<Millis>, ParseError>
    requires i <= |args|
    decreases |args| - i
  {
    if i == |args| then Ok(seen)
    else
      var option := Upper(args[i]);
      if option !in ["EX", "PX", "EXAT", "PXAT"] || seen.Some? || i + 1 == |args| then Err(Syntax)
      else
        var n :- DecodeInt(args[i + 1]);
        var deadline :- SetOptionDeadline(option, n, now);
        SetOptions(args, i + 2, Some(deadline), now)
  }

  function SetOptionDeadline(option: Bytes, n: int, now: Millis): Result<Millis, ParseError> {
    if option == "EX" then SetRelativeDeadline(n, false, now)
    else if option == "PX" then SetRelativeDeadline(n, true, now)
    else if option == "EXAT" then SetAbsoluteDeadline(n, false)
    else SetAbsoluteDeadline(n, true)
  }

  /** `parse_set` as the loop it is: the option list is consumed while a deadline is collected. */
  method ParseSet(args: seq<Bytes>, now: Millis) returns (r: Result<Command, ParseError>)
    ensures r == DecodeSet(args, now)
  {
    if |args| < 2 {
      return Err(Arity);
    }
    var i, expiresAt: Option<Millis>, expirySeen := 2, None, false;
    while i < |args|
      invariant 2 <= i <= |args| && expirySeen == expiresAt.Some?
      invariant SetOptions(args, 2, None, now) == SetOptions(args, i, expiresAt, now)
    {
      var option := Upper(args[i]);
      if option !in ["EX", "PX", "EXAT", "PXAT"] || expirySeen {
        return Err(Syntax);
      }
      expirySeen := true;
      if i + 1 == |args| {
        return Err(Syntax);
      }
      var n := DecodeInt(args[i + 1]);
      if n.Err? {
        return Err(n.error);
      }
      var deadline := SetOptionDeadline(option, n.value, now);
      if deadline.Err? {
        return Err(deadline.error);
      }
      expiresAt := Some(deadline.value);
      i := i + 2;
    }
    return Ok(Set(args[0], args[1], expiresAt));
  }
}
