/** The log's command codec: decoding inverts re-encoding. */
module Codec {
  import opened Base
  import opened Frames
  import opened Commands
  import Parser
  import Utf8

  /** The commands `from_frame` can produce when the clock reads `now`. */
  predicate Decodable(c: Command, now: Millis) {
    match c
    case Set(_, _, expiresAt) => expiresAt.None? || SetDeadlineDecodable(expiresAt.value, now)
    case Del(keys) => keys != []
    case Exists(keys) => keys != []
    case IncrBy(_, n) => IsI64(n)
    case DecrBy(_, n) => IsI64(n)
    case MGet(keys) => keys != []
    case MSet(pairs) => pairs != []
    case Expire(_, deadline) => deadline <= MAX_EXPIRE_AT_MS
    case PExpire(_, deadline) => deadline <= MAX_EXPIRE_AT_MS
    case PExpireAt(_, deadline) => deadline <= MAX_EXPIRE_AT_MS
    case LPush(_, values) => values != []
    case RPush(_, values) => values != []
    case LPop(_, count) => count.Some? ==> count.value <= I64_MAX
    case RPop(_, count) => count.Some? ==> count.value <= I64_MAX
    case LRange(_, start, stop) => IsI64(start) && IsI64(stop)
    case LIndex(_, idx) => IsI64(idx)
    case HSet(_, fields) => fields != []
    case HDel(_, names) => names != []
    case HIncrBy(_, _, n) => IsI64(n)
    case _ => true
  }

  predicate SetDeadlineDecodable(d: Millis, now: Millis) {
    1 <= d <= MAX_EXPIRE_AT_MS || (now < d <= now + MAX_EXPIRE_AT_MS && d <= U128_MAX)
  }

  /** A deadline no absolute option can express; it is logged relative to the clock. */
  predicate HasHugeDeadline(c: Command) {
    c.Deadline().Some? && c.Deadline().value > MAX_EXPIRE_AT_MS
  }

  lemma {:induction false} SetOptionsDecodable(args: seq<Bytes>, i: nat, seen: Option<Millis>, now: Millis)
    requires i <= |args|
    requires seen.Some? ==> SetDeadlineDecodable(seen.value, now)
    ensures var r := SetOptions(args, i, seen, now);
      r.Ok? && r.value.Some? ==> SetDeadlineDecodable(r.value.value, now)
    decreases |args| - i
  {
    hide ParseI64;
    if i < |args| && i + 1 < |args| && seen.None? {
      var option := Upper(args[i]);
      var n := ParseI64(args[i + 1]);
      if n.Some? {
        var deadline := SetOptionDeadline(option, n.value, now);
        if deadline.Ok? {
          SetOptionsDecodable(args, i + 2, Some(deadline.value), now);
        }
      }
    }
  }

  predicate PlainName(name: Bytes) {
    forall i :: 0 <= i < |name| ==> 'A' <= name[i] <= 'Z'
  }

  /** The verbs that occur in a log. */
  predicate Logs(verb: Verb) {
    LogsString(verb) || LogsNumber(verb) || LogsExpiry(verb) || LogsList(verb) || LogsHash(verb)
  }

  predicate LogsString(verb: Verb) {
    verb in {SET, DEL, APPEND, MSET}
  }

  predicate LogsNumber(verb: Verb) {
    verb in {INCR, DECR, INCRBY, DECRBY, HINCRBY}
  }

  predicate LogsExpiry(verb: Verb) {
    verb in {PEXPIRE, PEXPIREAT, PERSIST}
  }

  predicate LogsList(verb: Verb) {
    verb in {LPUSH, RPUSH, LPOP, RPOP}
  }

  predicate LogsHash(verb: Verb) {
    verb in {HSET, HDEL}
  }

  /** The command table has every verb under its name. The letters of a name tell it from all others. */
  lemma NameFound(verb: Verb)
    requires verb != OTHER
    ensures VerbOf(VerbName(verb)) == verb && PlainName(VerbName(verb))
  {
    hide VerbOf, VerbName, PlainName;
    match verb
    case GET | TTL | SET | DEL => ThreeLetters(verb);
    case INCR | DECR | MGET | MSET | PING => NumberNames(verb);
    case LPOP | RPOP | HSET | HDEL => EndNames(verb);
    case HGET | HLEN | PTTL => MiddleNames(verb);
    case ECHO | LLEN | INFO => ReadNames(verb);
    case LPUSH | RPUSH | HKEYS | HVALS => FiveLetters(verb);
    case INCRBY | DECRBY | APPEND | EXPIRE => SixLetters(verb);
    case EXISTS | STRLEN | LRANGE | LINDEX => IndexNames(verb);
    case HINCRBY | PEXPIRE | PERSIST | HGETALL | HEXISTS | PUBLISH => SevenLetters(verb);
    case PEXPIREAT | EXPIREAT | SUBSCRIBE | UNSUBSCRIBE | BGREWRITEAOF => LongNames(verb);
  }

  lemma ThreeLetters(verb: Verb)
    requires verb in {GET, TTL, SET, DEL}
    ensures VerbOf(VerbName(verb)) == verb && PlainName(VerbName(verb))
  {
    match verb
    case GET => assert "GET"[0] == 'G';
    case TTL => assert "TTL"[0] == 'T';
    case SET => assert "SET"[0] == 'S';
    case DEL => assert "DEL"[0] == 'D';
  }

  lemma NumberNames(verb: Verb)
    requires verb in {INCR, DECR, MGET, MSET, PING}
    ensures VerbOf(VerbName(verb)) == verb && PlainName(VerbName(verb))
  {
    match verb
    case INCR => assert "INCR"[0] == 'I' && "INCR"[1] == 'N' && "INCR"[2] == 'C';
    case DECR => assert "DECR"[0] == 'D';
    case MGET => assert "MGET"[0] == 'M' && "MGET"[1] == 'G';
    case MSET => assert "MSET"[0] == 'M' && "MSET"[1] == 'S';
    case PING => assert "PING"[0] == 'P' && "PING"[1] == 'I';
  }

  lemma EndNames(verb: Verb)
    requires verb in {LPOP, RPOP, HSET, HDEL}
    ensures VerbOf(VerbName(verb)) == verb && PlainName(VerbName(verb))
  {
    match verb
    case LPOP => assert "LPOP"[0] == 'L' && "LPOP"[1] == 'P';
    case RPOP => assert "RPOP"[0] == 'R';
    case HSET => assert "HSET"[0] == 'H' && "HSET"[1] == 'S';
    case HDEL => assert "HDEL"[0] == 'H' && "HDEL"[1] == 'D';
  }

  lemma MiddleNames(verb: Verb)
    requires verb in {HGET, HLEN, PTTL}
    ensures VerbOf(VerbName(verb)) == verb && PlainName(VerbName(verb))
  {
    match verb
    case HGET => assert "HGET"[0] == 'H' && "HGET"[1] == 'G';
    case HLEN => assert "HLEN"[0] == 'H' && "HLEN"[1] == 'L';
    case PTTL => assert "PTTL"[0] == 'P' && "PTTL"[1] == 'T';
  }

  lemma ReadNames(verb: Verb)
    requires verb in {ECHO, LLEN, INFO}
    ensures VerbOf(VerbName(verb)) == verb && PlainName(VerbName(verb))
  {
    match verb
    case ECHO => assert "ECHO"[0] == 'E';
    case LLEN => assert "LLEN"[0] == 'L' && "LLEN"[1] == 'L';
    case INFO => assert "INFO"[0] == 'I' && "INFO"[1] == 'N' && "INFO"[2] == 'F';
  }

  lemma FiveLetters(verb: Verb)
    requires verb in {LPUSH, RPUSH, HKEYS, HVALS}
    ensures VerbOf(VerbName(verb)) == verb && PlainName(VerbName(verb))
  {
    match verb
    case LPUSH => assert "LPUSH"[0] == 'L';
    case RPUSH => assert "RPUSH"[0] == 'R';
    case HKEYS => assert "HKEYS"[0] == 'H' && "HKEYS"[1] == 'K';
    case HVALS => assert "HVALS"[0] == 'H' && "HVALS"[1] == 'V';
  }

  lemma SixLetters(verb: Verb)
    requires verb in {INCRBY, DECRBY, APPEND, EXPIRE}
    ensures VerbOf(VerbName(verb)) == verb && PlainName(VerbName(verb))
  {
    match verb
    case INCRBY => assert "INCRBY"[0] == 'I';
    case DECRBY => assert "DECRBY"[0] == 'D';
    case APPEND => assert "APPEND"[0] == 'A';
    case EXPIRE => assert "EXPIRE"[0] == 'E' && "EXPIRE"[1] == 'X' && "EXPIRE"[2] == 'P';
  }

  lemma IndexNames(verb: Verb)
    requires verb in {EXISTS, STRLEN, LRANGE, LINDEX}
    ensures VerbOf(VerbName(verb)) == verb && PlainName(VerbName(verb))
  {
    match verb
    case EXISTS => assert "EXISTS"[0] == 'E' && "EXISTS"[1] == 'X' && "EXISTS"[2] == 'I';
    case STRLEN => assert "STRLEN"[0] == 'S';
    case LRANGE => assert "LRANGE"[0] == 'L' && "LRANGE"[1] == 'R';
    case LINDEX => assert "LINDEX"[0] == 'L' && "LINDEX"[1] == 'I';
  }

  lemma SevenLetters(verb: Verb)
    requires verb in {HINCRBY, PEXPIRE, PERSIST, HGETALL, HEXISTS, PUBLISH}
    ensures VerbOf(VerbName(verb)) == verb && PlainName(VerbName(verb))
  {
    match verb
    case HINCRBY => assert "HINCRBY"[0] == 'H' && "HINCRBY"[1] == 'I';
    case PEXPIRE => assert "PEXPIRE"[0] == 'P' && "PEXPIRE"[1] == 'E' && "PEXPIRE"[2] == 'X';
    case PERSIST => assert "PERSIST"[0] == 'P' && "PERSIST"[1] == 'E' && "PERSIST"[2] == 'R';
    case HGETALL => assert "HGETALL"[0] == 'H' && "HGETALL"[1] == 'G';
    case HEXISTS => assert "HEXISTS"[0] == 'H' && "HEXISTS"[1] == 'E';
    case PUBLISH => assert "PUBLISH"[0] == 'P' && "PUBLISH"[1] == 'U';
  }

  lemma LongNames(verb: Verb)
    requires verb in {PEXPIREAT, EXPIREAT, SUBSCRIBE, UNSUBSCRIBE, BGREWRITEAOF}
    ensures VerbOf(VerbName(verb)) == verb && PlainName(VerbName(verb))
  {
    match verb
    case PEXPIREAT => assert "PEXPIREAT"[0] == 'P';
    case EXPIREAT =>
    case SUBSCRIBE => assert "SUBSCRIBE"[0] == 'S';
    case UNSUBSCRIBE =>
    case BGREWRITEAOF =>
  }

  /** Whatever decodes is decodable. */
  lemma DecodeYieldsDecodable(verb: Verb, args: seq<Bytes>, now: Millis)
    requires verb != OTHER
    ensures var r := Decode(verb, args, now); r.Ok? ==> Decodable(r.value, now)
  {
    if verb in {SET, EXPIRE, PEXPIRE, EXPIREAT, PEXPIREAT} {
      DeadlineDecodable(verb, args, now);
    } else if LogsNumber(verb) || LogsList(verb) {
      CountedDecodable(verb, args, now);
    } else if Logs(verb) {
      FieldsDecodable(verb, args, now);
    } else if verb in {HGET, HKEYS, HVALS, HGETALL, HEXISTS, HLEN} {
      HashReadDecodable(verb, args, now);
    } else if verb in {SUBSCRIBE, UNSUBSCRIBE, PUBLISH, INFO, BGREWRITEAOF} {
      OtherDecodable(verb, args, now);
    }
  }

  lemma DeadlineDecodable(verb: Verb, args: seq<Bytes>, now: Millis)
    requires verb in {SET, EXPIRE, PEXPIRE, EXPIREAT, PEXPIREAT}
    ensures var r := Decode(verb, args, now); r.Ok? ==> Decodable(r.value, now)
  {
    hide ParseI64, SetOptions;
    if |args| >= 2 {
      SetOptionsDecodable(args, 2, None, now);
    }
  }

  lemma CountedDecodable(verb: Verb, args: seq<Bytes>, now: Millis)
    requires LogsNumber(verb) || LogsList(verb)
    ensures var r := Decode(verb, args, now); r.Ok? ==> Decodable(r.value, now)
  {
    hide ParseI64, VerbOf, DecodeSet, DecodeInt, DecodeCount, PairUp;
    match verb
    case INCR | DECR | INCRBY | DECRBY | HINCRBY =>
    case LPUSH | RPUSH | LPOP | RPOP =>
  }

  lemma FieldsDecodable(verb: Verb, args: seq<Bytes>, now: Millis)
    requires verb in {DEL, APPEND, MSET, PERSIST, HSET, HDEL}
    ensures var r := Decode(verb, args, now); r.Ok? ==> Decodable(r.value, now)
  {
    hide ParseI64, VerbOf, DecodeSet, DecodeInt, DecodeCount;
  }

  lemma HashReadDecodable(verb: Verb, args: seq<Bytes>, now: Millis)
    requires verb in {HGET, HKEYS, HVALS, HGETALL, HEXISTS, HLEN}
    ensures var r := Decode(verb, args, now); r.Ok? ==> Decodable(r.value, now)
  {
    hide ParseI64, VerbOf, DecodeSet, DecodeInt, DecodeCount, PairUp;
  }

  lemma OtherDecodable(verb: Verb, args: seq<Bytes>, now: Millis)
    requires verb in {SUBSCRIBE, UNSUBSCRIBE, PUBLISH, INFO, BGREWRITEAOF}
    ensures var r := Decode(verb, args, now); r.Ok? ==> Decodable(r.value, now)
  {
    hide ParseI64, VerbOf, DecodeSet, DecodeInt, DecodeCount, PairUp;
  }

  lemma FromFrameYieldsDecodable(f: Frame, now: Millis)
    ensures var r := FromFrame(f, now); r.Ok? ==> Decodable(r.value, now)
  {
    hide VerbOf, Decode;
    if f.Array? && f.items != [] && f.items[0].Bulk? {
      var rest := ExpectBulks(f.items, 1);
      var verb := VerbOf(Upper(f.items[0].data));
      if rest.Ok? && verb != OTHER {
        DecodeYieldsDecodable(verb, rest.value, now);
      }
    }
  }

  // ---- requests decode to their command ----

  lemma {:induction false} ExpectBulksOf(parts: seq<Bytes>, i: nat)
    requires i <= |parts|
    ensures ExpectBulks(Parser.Bulks(parts), i) == Ok(parts[i..])
    decreases |parts| - i
  {
    if i < |parts| {
      assert Parser.Bulks(parts)[i] == Bulk(parts[i]);
      ExpectBulksOf(parts, i + 1);
      assert [parts[i]] + parts[i + 1..] == parts[i..];
    } else {
      assert parts[i..] == [];
    }
  }

  /** The two agree but for the case of letters; the second is in capitals. */
  predicate SameLetters(a: Bytes, name: Bytes) {
    && |a| == |name|
    && forall i :: 0 <= i < |name| ==> a[i] == name[i] || ('A' <= name[i] <= 'Z' && a[i] as int == name[i] as int + 32)
  }

  lemma SameLettersUpper(a: Bytes, name: Bytes)
    requires SameLetters(a, name) && PlainName(name)
    ensures Upper(a) == name && Utf8.Ascii(a)
  {
  }

  /** A request is decoded as the command its first item names, in whatever case. */
  lemma NamedRequestDecodes(name: Bytes, verb: Verb, args: seq<Bytes>, now: Millis)
    requires verb != OTHER && SameLetters(name, VerbName(verb))
    ensures FromFrame(Request([name] + args), now) == Decode(verb, args, now)
  {
    hide VerbOf, VerbName, Decode, Upper, SameLetters;
    NameFound(verb);
    SameLettersUpper(name, VerbName(verb));
    var parts := [name] + args;
    Utf8.AsciiIsValid(name, 0);
    ExpectBulksOf(parts, 1);
    assert parts[1..] == args;
  }

  lemma RequestDecodes(verb: Verb, args: seq<Bytes>, now: Millis)
    requires verb != OTHER
    ensures FromFrame(Request([VerbName(verb)] + args), now) == Decode(verb, args, now)
  {
    hide VerbName, FromFrame, Decode;
    NamedRequestDecodes(VerbName(verb), verb, args, now);
  }

  lemma {:induction false} PairUpInverse(pairs: seq<(Bytes, Bytes)>)
    ensures PairUp(Unpair(pairs)) == pairs
  {
    if pairs != [] {
      var flat := Unpair(pairs);
      assert flat[0] == pairs[0].0 && flat[1] == pairs[0].1;
      assert flat[2..] == Unpair(pairs[1..]);
      PairUpInverse(pairs[1..]);
      assert [pairs[0]] + pairs[1..] == pairs;
    }
  }

  lemma DecodeNat(n: nat)
    ensures DecodeInt(Dec(n)) == if n <= I64_MAX then Ok(n) else Err(NotInt)
  {
    ParseDecInt(n);
  }

  /** Read at the clock reading it was logged at, the relative form gives the deadline, or the closest one that a
      relative form can give. */
  lemma RelativeIsClosest(deadline: Millis, now: Millis, other: Millis)
    requires now < other <= now + I64_MAX
    ensures var read := now + RelativeMillis(deadline, now);
      && now < read <= now + I64_MAX
      && (if read < deadline then other <= read else deadline <= other ==> read <= other)
      && (now < deadline <= now + I64_MAX ==> read == deadline)
  {
  }

  /** The deadline that comes back from a frame with a deadline in it; `None` if the frame is refused.
      `oneSet` says whether it is a SET or a frame that only sets the deadline. */
  function ReadDeadline(oneSet: bool, expiresAt: Option<Millis>, logged: Millis, now: Millis): Option<Option<Millis>> {
    if expiresAt.None? || expiresAt.value <= MAX_EXPIRE_AT_MS then Some(expiresAt)
    else
      var back := now + RelativeMillis(expiresAt.value, logged);
      if back <= (if oneSet then U128_MAX else MAX_EXPIRE_AT_MS) then Some(Some(back)) else None
  }

  /** What a logged SET decodes to, now or later. */
  lemma SetReadsBack(key: Bytes, value: Bytes, expiresAt: Option<Millis>, logged: Millis, now: Millis)
    requires expiresAt.Some? ==> expiresAt.value > 0
    ensures var back := ReadDeadline(true, expiresAt, logged, now);
      DecodeSet([key, value] + SetExpiry(expiresAt, logged), now)
      == if back.Some? then Ok(Set(key, value, back.value)) else Err(InvalidExpireTime)
  {
    hide Dec, ParseI64, DecodeInt;
    var args := [key, value] + SetExpiry(expiresAt, logged);
    if expiresAt.Some? {
      var d := expiresAt.value;
      var absolute := d <= MAX_EXPIRE_AT_MS;
      assert args == [key, value, if absolute then "PXAT" else "PX", args[3]];
      var n := if absolute then d else RelativeMillis(d, logged);
      assert args[3] == Dec(n);
      DecodeNat(n);
      assert Upper("PXAT") == "PXAT" && Upper("PX") == "PX";
      var option := if absolute then "PXAT" else "PX";
      assert args[2] == option && Upper(args[2]) == option;
      var deadline := SetOptionDeadline(option, n, now);
      if deadline.Ok? {
        assert SetOptions(args, 4, Some(deadline.value), now) == Ok(Some(deadline.value));
      }
    }
  }

  /** SET decodes back exactly when its deadline is absolute or the clock has not moved. */
  lemma SetDecodes(key: Bytes, value: Bytes, expiresAt: Option<Millis>, logged: Millis, now: Millis)
    requires expiresAt.Some? ==> SetDeadlineDecodable(expiresAt.value, logged)
    ensures DecodeSet([key, value] + SetExpiry(expiresAt, logged), now) == Ok(Set(key, value, expiresAt))
      <==> expiresAt.None? || expiresAt.value <= MAX_EXPIRE_AT_MS || logged == now
  {
    hide DecodeSet, Dec;
    SetReadsBack(key, value, expiresAt, logged, now);
  }

  /** The frame that sets a deadline no absolute option can express. */
  lemma PExpireReadsBack(key: Bytes, deadline: Millis, logged: Millis, now: Millis)
    requires deadline > MAX_EXPIRE_AT_MS
    ensures var back := ReadDeadline(false, Some(deadline), logged, now);
      FromFrame(Request(["PEXPIRE", key, Dec(RelativeMillis(deadline, logged))]), now)
      == if back.Some? then Ok(PExpire(key, back.value.value)) else Err(InvalidExpireTime)
  {
    hide FromFrame, Dec;
    var rel := RelativeMillis(deadline, logged);
    assert ["PEXPIRE", key, Dec(rel)] == ["PEXPIRE"] + [key, Dec(rel)];
    RequestDecodes(PEXPIRE, [key, Dec(rel)], now);
    DecodeNat(rel);
  }

  /** Decoding a write's logged request gives the command back, expiry commands in their absolute
      form; with a huge deadline exactly when the clock has not moved since it was logged. */
  lemma LogDecodes(c: Command, logged: Millis, now: Millis)
    requires c.IsWrite() && Decodable(c, logged)
    ensures c.AofFrame(logged).Some?
    ensures FromFrame(c.AofFrame(logged).value, now) == Ok(c.Logged())
      <==> !HasHugeDeadline(c) || logged == now
  {
    hide FromFrame, VerbOf;
    if c.Set? {
      SetLogDecodes(c, logged, now);
    } else if c.Deadline().Some? {
      ExpiryRequestDecodes(c.key, c.deadline, now);
    } else if c.Incr? || c.Decr? || c.IncrBy? || c.DecrBy? || c.HIncrBy? {
      NumberDecodes(c, logged, now);
    } else if c.LPush? || c.RPush? {
      PushDecodes(c.LPush?, c.key, c.values, now);
    } else if c.LPop? || c.RPop? {
      PopDecodes(c.LPop?, c.key, c.count, now);
    } else if c.HSet? || c.HDel? {
      HashDecodes(c, logged, now);
    } else {
      StringDecodes(c, logged, now);
    }
  }

  lemma SetLogDecodes(c: Command, logged: Millis, now: Millis)
    requires c.Set? && Decodable(c, logged)
    ensures FromFrame(c.AofFrame(logged).value, now) == Ok(c.Logged())
      <==> !HasHugeDeadline(c) || logged == now
  {
    hide FromFrame, VerbOf, DecodeSet;
    var args := [c.key, c.value] + SetExpiry(c.expiresAt, logged);
    assert ["SET", c.key, c.value] + SetExpiry(c.expiresAt, logged) == ["SET"] + args;
    RequestDecodes(SET, args, now);
    SetDecodes(c.key, c.value, c.expiresAt, logged, now);
  }

  lemma ExpiryRequestDecodes(key: Bytes, deadline: Millis, now: Millis)
    requires deadline <= MAX_EXPIRE_AT_MS
    ensures FromFrame(Request(["PEXPIREAT", key, Dec(deadline)]), now) == Ok(PExpireAt(key, deadline))
  {
    hide FromFrame, ParseI64, VerbOf, Dec, DecodeInt;
    var args := [key, Dec(deadline)];
    assert ["PEXPIREAT", key, Dec(deadline)] == ["PEXPIREAT"] + args;
    RequestDecodes(PEXPIREAT, args, now);
    DecodeNat(deadline);
  }

  lemma NumberDecodes(c: Command, logged: Millis, now: Millis)
    requires c.Incr? || c.Decr? || c.IncrBy? || c.DecrBy? || c.HIncrBy?
    requires Decodable(c, logged)
    ensures FromFrame(c.AofFrame(logged).value, now) == Ok(c.Logged())
  {
    hide FromFrame, VerbOf, ParseI64, Dec;
    var verb := if c.Incr? then INCR else if c.Decr? then DECR else if c.IncrBy? then INCRBY
                else if c.DecrBy? then DECRBY else HINCRBY;
    var args := c.AofParts(logged).value[1..];
    assert c.AofParts(logged).value == [VerbName(verb)] + args;
    RequestDecodes(verb, args, now);
    if !c.Incr? && !c.Decr? {
      ParseDecInt(c.n);
    }
  }

  lemma PushDecodes(left: bool, key: Bytes, values: seq<Bytes>, now: Millis)
    requires values != []
    ensures FromFrame(Request([if left then "LPUSH" else "RPUSH", key] + values), now)
         == Ok(if left then LPush(key, values) else RPush(key, values))
  {
    hide FromFrame, VerbOf;
    var verb := if left then LPUSH else RPUSH;
    assert [VerbName(verb), key] + values == [VerbName(verb)] + ([key] + values);
    RequestDecodes(verb, [key] + values, now);
    assert ([key] + values)[1..] == values;
  }

  lemma PopDecodes(left: bool, key: Bytes, count: Option<nat>, now: Millis)
    requires count.Some? ==> count.value <= I64_MAX
    ensures FromFrame(Request([if left then "LPOP" else "RPOP", key] + Counted(count)), now)
         == Ok(if left then LPop(key, count) else RPop(key, count))
  {
    hide FromFrame, VerbOf, DecodeInt, Dec;
    var verb := if left then LPOP else RPOP;
    assert [VerbName(verb), key] + Counted(count) == [VerbName(verb)] + ([key] + Counted(count));
    RequestDecodes(verb, [key] + Counted(count), now);
    if count.Some? {
      DecodeNat(count.value);
    }
  }

  lemma StringDecodes(c: Command, logged: Millis, now: Millis)
    requires c.Del? || c.Append? || c.MSet? || c.Persist?
    requires Decodable(c, logged)
    ensures FromFrame(c.AofFrame(logged).value, now) == Ok(c.Logged())
  {
    hide FromFrame, VerbOf;
    var verb := if c.Del? then DEL else if c.Append? then APPEND else if c.MSet? then MSET else PERSIST;
    var args := if c.Del? then c.keys else if c.Append? then [c.key, c.value] else if c.MSet? then Unpair(c.pairs) else [c.key];
    assert c.AofParts(logged).value == [VerbName(verb)] + args;
    RequestDecodes(verb, args, now);
    if c.MSet? {
      PairUpInverse(c.pairs);
    }
  }

  lemma HashDecodes(c: Command, logged: Millis, now: Millis)
    requires c.HSet? || c.HDel?
    requires Decodable(c, logged)
    ensures FromFrame(c.AofFrame(logged).value, now) == Ok(c.Logged())
  {
    hide FromFrame, VerbOf;
    var verb := if c.HSet? then HSET else HDEL;
    var args := if c.HSet? then [c.key] + Unpair(c.fields) else [c.key] + c.names;
    assert c.AofParts(logged).value == [VerbName(verb)] + args;
    RequestDecodes(verb, args, now);
    if c.HSet? {
      PairUpInverse(c.fields);
      assert args[1..] == Unpair(c.fields);
    } else {
      assert args[1..] == c.names;
    }
  }

  /** A command has a log form exactly when it is a write. */
  lemma LoggedIffWrite(c: Command, now: Millis)
    ensures c.AofFrame(now).Some? <==> c.IsWrite()
  {
  }
}
