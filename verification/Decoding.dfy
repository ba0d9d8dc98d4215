/** What requests mean, read off the request itself: every command under its name in any case of letters,
    with its arguments in their places, and the deadlines that expiry options and commands set
    (`Command::from_frame` in `src/cmd/mod.rs`). */
module Decoding {
  import opened Base
  import opened Frames
  import opened Commands
  import Codec
  import Requests
  import Utf8

  // ---- deadlines ----

  /** An expire-time error, unless the deadline may be set. */
  function SetTo(key: Bytes, value: Bytes, deadline: int, allowed: bool): Result<Command, ParseError>
    requires allowed ==> deadline >= 0
  {
    if allowed then Ok(Set(key, value, Some(deadline))) else Err(InvalidExpireTime)
  }

  predicate IsOption(word: Bytes) {
    Codec.SameLetters(word, "EX") || Codec.SameLetters(word, "PX") || Codec.SameLetters(word, "EXAT")
    || Codec.SameLetters(word, "PXAT")
  }

  /** SET with an expiry: EX counts seconds and PX milliseconds from now on, EXAT and PXAT name the second and
      the millisecond; a number that is not positive, or too large, is an error. */
  lemma SetWithExpiry(name: Bytes, key: Bytes, value: Bytes, option: Bytes, text: Bytes, now: Millis)
    requires Codec.SameLetters(name, "SET")
    ensures var r := FromFrame(Request([name, key, value, option, text]), now);
      && (!IsOption(option) ==> r == Err(Syntax))
      && (IsOption(option) && ParseI64(text).None? ==> r == Err(NotInt))
      && (ParseI64(text).Some? ==>
            var n := ParseI64(text).value;
            && (Codec.SameLetters(option, "EX") ==>
                  r == SetTo(key, value, now + 1000 * n, 0 < n && 1000 * n <= I64_MAX && now + 1000 * n <= U128_MAX))
            && (Codec.SameLetters(option, "PX") ==> r == SetTo(key, value, now + n, 0 < n && now + n <= U128_MAX))
            && (Codec.SameLetters(option, "EXAT") ==> r == SetTo(key, value, 1000 * n, 0 < n && 1000 * n <= I64_MAX))
            && (Codec.SameLetters(option, "PXAT") ==> r == SetTo(key, value, n, 0 < n)))
  {
    hide FromFrame, ParseI64, Codec.SameLetters, Upper;
    var args := [key, value, option, text];
    assert [name, key, value, option, text] == [name] + args;
    Codec.NamedRequestDecodes(name, SET, args, now);
    OptionWords(option);
    if DecodeInt(text).Ok? {
      var deadline := SetOptionDeadline(Upper(option), DecodeInt(text).value, now);
      assert deadline.Ok? ==> SetOptions(args, 4, Some(deadline.value), now) == Ok(Some(deadline.value));
    }
  }

  lemma OptionWords(option: Bytes)
    ensures Codec.SameLetters(option, "EX") <==> Upper(option) == "EX"
    ensures Codec.SameLetters(option, "PX") <==> Upper(option) == "PX"
    ensures Codec.SameLetters(option, "EXAT") <==> Upper(option) == "EXAT"
    ensures Codec.SameLetters(option, "PXAT") <==> Upper(option) == "PXAT"
  {
    UpperWord(option, "EX");
    UpperWord(option, "PX");
    UpperWord(option, "EXAT");
    UpperWord(option, "PXAT");
  }

  lemma UpperWord(a: Bytes, word: Bytes)
    requires Codec.PlainName(word)
    ensures Codec.SameLetters(a, word) <==> Upper(a) == word
  {
    if Upper(a) == word {
      forall i | 0 <= i < |word|
        ensures a[i] == word[i] || a[i] as int == word[i] as int + 32
      {
        assert UpperChar(a[i]) == word[i];
      }
    }
    if Codec.SameLetters(a, word) {
      Codec.SameLettersUpper(a, word);
    }
  }

  /** The expiry commands: seconds or milliseconds from now on, or the second or millisecond itself; a number
      that is not positive is a deadline in the past. */
  lemma ExpiryRequests(name: Bytes, verb: Verb, key: Bytes, text: Bytes, now: Millis)
    requires verb in {EXPIRE, PEXPIRE, EXPIREAT, PEXPIREAT} && Codec.SameLetters(name, VerbName(verb))
    ensures var r := FromFrame(Request([name, key, text]), now);
      && (ParseI64(text).None? ==> r == Err(NotInt))
      && (ParseI64(text).Some? ==>
            var n := ParseI64(text).value;
            match verb
            case EXPIRE =>
              if n <= 0 then r == Ok(Expire(key, 0))
              else r == if now + 1000 * n <= I64_MAX then Ok(Expire(key, now + 1000 * n)) else Err(InvalidExpireTime)
            case PEXPIRE =>
              if n <= 0 then r == Ok(PExpire(key, 0))
              else r == if now + n <= I64_MAX then Ok(PExpire(key, now + n)) else Err(InvalidExpireTime)
            case EXPIREAT =>
              if n <= 0 then r == Ok(PExpireAt(key, 0))
              else r == if 1000 * n <= I64_MAX then Ok(PExpireAt(key, 1000 * n)) else Err(InvalidExpireTime)
            case PEXPIREAT =>
              if n <= 0 then r == Ok(PExpireAt(key, 0)) else r == Ok(PExpireAt(key, n)))
  {
    hide FromFrame, ParseI64, Codec.SameLetters, VerbName;
    assert [name, key, text] == [name] + [key, text];
    Codec.NamedRequestDecodes(name, verb, [key, text], now);
  }

  /** SET takes nothing else: no expiry, or exactly one with its number. */
  lemma SetTakesOneExpiry(name: Bytes, args: seq<Bytes>, now: Millis)
    requires Codec.SameLetters(name, "SET")
    ensures FromFrame(Request([name] + args), now).Ok? ==> |args| == 2 || |args| == 4
  {
    hide FromFrame, DecodeSet, Codec.SameLetters;
    Codec.NamedRequestDecodes(name, SET, args, now);
    if |args| < 2 {
      SetNeedsTwo(args, now);
    } else if |args| > 2 && DecodeSet(args, now).Ok? {
      Requests.SetHasOneOption(args, now);
    }
  }

  lemma SetNeedsTwo(args: seq<Bytes>, now: Millis)
    requires |args| < 2
    ensures DecodeSet(args, now) == Err(Arity)
  {
  }

  // ---- the other commands ----

  /** Names and values in turn. */
  function InTurn(pairs: seq<(Bytes, Bytes)>): seq<Bytes> {
    seq(2 * |pairs|, i requires 0 <= i < 2 * |pairs| => if i % 2 == 0 then pairs[i / 2].0 else pairs[i / 2].1)
  }

  lemma {:induction false} UnpairIs(pairs: seq<(Bytes, Bytes)>)
    ensures Unpair(pairs) == InTurn(pairs)
  {
    if pairs != [] {
      UnpairIs(pairs[1..]);
      assert InTurn(pairs) == [pairs[0].0, pairs[0].1] + InTurn(pairs[1..]);
    }
  }

  /** A command as a client writes it; deadlines are treated above. */
  function Words(c: Command): Option<seq<Bytes>> {
    match c
    case Ping(message) => Some(if message.None? then ["PING"] else ["PING", message.value])
    case Echo(message) => Some(["ECHO", message])
    case Get(key) => Some(["GET", key])
    case Set(key, value, None) => Some(["SET", key, value])
    case Del(keys) => Some(["DEL"] + keys)
    case Exists(keys) => Some(["EXISTS"] + keys)
    case Incr(key) => Some(["INCR", key])
    case Decr(key) => Some(["DECR", key])
    case IncrBy(key, n) => Some(["INCRBY", key, DecInt(n)])
    case DecrBy(key, n) => Some(["DECRBY", key, DecInt(n)])
    case Append(key, value) => Some(["APPEND", key, value])
    case Strlen(key) => Some(["STRLEN", key])
    case MGet(keys) => Some(["MGET"] + keys)
    case MSet(pairs) => Some(["MSET"] + InTurn(pairs))
    case Ttl(key) => Some(["TTL", key])
    case PTtl(key) => Some(["PTTL", key])
    case Persist(key) => Some(["PERSIST", key])
    case LPush(key, values) => Some(["LPUSH", key] + values)
    case RPush(key, values) => Some(["RPUSH", key] + values)
    case LPop(key, count) => Some(["LPOP", key] + (if count.Some? then [DecInt(count.value)] else []))
    case RPop(key, count) => Some(["RPOP", key] + (if count.Some? then [DecInt(count.value)] else []))
    case LRange(key, start, stop) => Some(["LRANGE", key, DecInt(start), DecInt(stop)])
    case LLen(key) => Some(["LLEN", key])
    case LIndex(key, index) => Some(["LINDEX", key, DecInt(index)])
    case HSet(key, fields) => Some(["HSET", key] + InTurn(fields))
    case HGet(key, field) => Some(["HGET", key, field])
    case HDel(key, names) => Some(["HDEL", key] + names)
    case HKeys(key) => Some(["HKEYS", key])
    case HVals(key) => Some(["HVALS", key])
    case HGetAll(key) => Some(["HGETALL", key])
    case HExists(key, field) => Some(["HEXISTS", key, field])
    case HLen(key) => Some(["HLEN", key])
    case HIncrBy(key, field, n) => Some(["HINCRBY", key, field, DecInt(n)])
    case Subscribe(channels) => Some(["SUBSCRIBE"] + channels)
    case Unsubscribe(some) => Some(["UNSUBSCRIBE"] + (if some.Some? then some.value else []))
    case Publish(channel, payload) => Some(["PUBLISH", channel, payload])
    case Info(section) => Some(if section.None? then ["INFO"] else ["INFO", section.value])
    case BgRewriteAof => Some(["BGREWRITEAOF"])
    case _ => None
  }

  /** What decoding can yield: no empty lists, numbers of 64 bits, INFO sections in small letters. */
  predicate Wellformed(c: Command, now: Millis) {
    && Codec.Decodable(c, now)
    && (c.Subscribe? ==> c.channels != [])
    && (c.Unsubscribe? && c.some.Some? ==> c.some.value != [])
    && (c.Info? && c.section.Some? ==> Utf8.Valid(c.section.value) && Lower(c.section.value) == c.section.value)
  }

  function VerbFor(c: Command): Verb {
    match c
    case Ping(_) => PING
    case Echo(_) => ECHO
    case Get(_) => GET
    case Set(_, _, _) => SET
    case Del(_) => DEL
    case Exists(_) => EXISTS
    case Incr(_) => INCR
    case Decr(_) => DECR
    case IncrBy(_, _) => INCRBY
    case DecrBy(_, _) => DECRBY
    case Append(_, _) => APPEND
    case Strlen(_) => STRLEN
    case MGet(_) => MGET
    case MSet(_) => MSET
    case Ttl(_) => TTL
    case PTtl(_) => PTTL
    case Persist(_) => PERSIST
    case LPush(_, _) => LPUSH
    case RPush(_, _) => RPUSH
    case LPop(_, _) => LPOP
    case RPop(_, _) => RPOP
    case LRange(_, _, _) => LRANGE
    case LLen(_) => LLEN
    case LIndex(_, _) => LINDEX
    case HSet(_, _) => HSET
    case HGet(_, _) => HGET
    case HDel(_, _) => HDEL
    case HKeys(_) => HKEYS
    case HVals(_) => HVALS
    case HGetAll(_) => HGETALL
    case HExists(_, _) => HEXISTS
    case HLen(_) => HLEN
    case HIncrBy(_, _, _) => HINCRBY
    case Subscribe(_) => SUBSCRIBE
    case Unsubscribe(_) => UNSUBSCRIBE
    case Publish(_, _) => PUBLISH
    case Info(_) => INFO
    case BgRewriteAof => BGREWRITEAOF
    case Expire(_, _) => EXPIRE
    case PExpire(_, _) => PEXPIRE
    case PExpireAt(_, _) => PEXPIREAT
    case Unknown(_) => OTHER
  }

  /** Which arguments are numbers. */
  predicate NumberAt(c: Command, i: nat) {
    match c
    case IncrBy(_, _) | DecrBy(_, _) | LPop(_, _) | RPop(_, _) | LIndex(_, _) => i == 1
    case LRange(_, _, _) => i == 1 || i == 2
    case HIncrBy(_, _, _) => i == 2
    case _ => false
  }

  /** The second has small letters where the first has capitals, and else the same. */
  predicate Small(given: Bytes, word: Bytes) {
    && |word| == |given|
    && forall i :: 0 <= i < |given| ==>
         if 'A' <= given[i] <= 'Z' then word[i] as int == given[i] as int + 32 else word[i] == given[i]
  }

  lemma SmallIsLower(given: Bytes, word: Bytes)
    ensures Small(given, word) <==> word == Lower(given)
  {
    if Small(given, word) {
      forall i | 0 <= i < |given|
        ensures word[i] == Lower(given)[i]
      {
        assert Lower(given)[i] == LowerChar(given[i]);
      }
    }
  }

  /** A number may be written in other ways (zeros in front, a plus sign), and an INFO section in capitals. */
  predicate Same(given: Bytes, word: Bytes, number: bool, info: bool) {
    if number then ParseI64(given).Some? && word == DecInt(ParseI64(given).value)
    else if info then Utf8.Valid(given) && Small(given, word)
    else given == word
  }

  predicate ArgumentsOf(args: seq<Bytes>, c: Command)
    requires Words(c).Some?
  {
    |args| + 1 == |Words(c).value| &&
    forall i :: 0 <= i < |args| ==> Same(args[i], Words(c).value[i + 1], NumberAt(c, i), c.Info?)
  }

  /** The request has the name of the command, in any case of letters, and its arguments. */
  predicate Spells(f: Frame, c: Command)
    requires Words(c).Some?
  {
    && Words(c).value != [] && f.Array? && f.items != []
    && (forall i :: 0 <= i < |f.items| ==> f.items[i].Bulk?)
    && Codec.SameLetters(f.items[0].data, Words(c).value[0])
    && ArgumentsOf(seq(|f.items| - 1, i requires 0 <= i < |f.items| - 1 => f.items[i + 1].data), c)
  }

  // ---- names ----

  lemma Named(c: Command)
    requires Words(c).Some?
    ensures VerbFor(c) != OTHER && Words(c).value != [] && Words(c).value[0] == VerbName(VerbFor(c))
  {
    hide VerbName, DecInt, VerbFor, InTurn;
    match c
    case Incr(_) | Decr(_) | IncrBy(_, _) | DecrBy(_, _) | Append(_, _) => StringNamed(c);
    case Set(_, _, _) | Del(_) | MSet(_) | Persist(_) => KeyWriteNamed(c);
    case LPush(_, _) | RPush(_, _) | LPop(_, _) | RPop(_, _) | LRange(_, _, _) | LIndex(_, _) | LLen(_) => ListNamed(c);
    case HSet(_, _) | HDel(_, _) | HIncrBy(_, _, _) | HGet(_, _) => FieldNamed(c);
    case HKeys(_) | HVals(_) | HGetAll(_) | HExists(_, _) | HLen(_) => HashNamed(c);
    case Echo(_) | Get(_) | Exists(_) | Strlen(_) | MGet(_) | Ttl(_) | PTtl(_) => ReadNamed(c);
    case Ping(_) | Info(_) | BgRewriteAof => ServerNamed(c);
    case Subscribe(_) | Unsubscribe(_) | Publish(_, _) => ChannelNamed(c);
    case _ =>
  }

  lemma StringNamed(c: Command)
    requires c.Incr? || c.Decr? || c.IncrBy? || c.DecrBy? || c.Append?
    ensures Words(c).Some? ==> VerbFor(c) != OTHER && Words(c).value != [] && Words(c).value[0] == VerbName(VerbFor(c))
  {
    hide DecInt, InTurn;
  }

  lemma KeyWriteNamed(c: Command)
    requires c.Set? || c.Del? || c.MSet? || c.Persist?
    ensures Words(c).Some? ==> VerbFor(c) != OTHER && Words(c).value != [] && Words(c).value[0] == VerbName(VerbFor(c))
  {
    hide DecInt, InTurn;
  }

  lemma ListNamed(c: Command)
    requires c.LPush? || c.RPush? || c.LPop? || c.RPop? || c.LRange? || c.LIndex? || c.LLen?
    ensures Words(c).Some? ==> VerbFor(c) != OTHER && Words(c).value != [] && Words(c).value[0] == VerbName(VerbFor(c))
  {
    hide DecInt, InTurn;
  }

  lemma FieldNamed(c: Command)
    requires c.HSet? || c.HDel? || c.HIncrBy? || c.HGet?
    ensures Words(c).Some? ==> VerbFor(c) != OTHER && Words(c).value != [] && Words(c).value[0] == VerbName(VerbFor(c))
  {
    hide DecInt, InTurn;
  }

  lemma HashNamed(c: Command)
    requires c.HKeys? || c.HVals? || c.HGetAll? || c.HExists? || c.HLen?
    ensures Words(c).Some? ==> VerbFor(c) != OTHER && Words(c).value != [] && Words(c).value[0] == VerbName(VerbFor(c))
  {
    hide DecInt, InTurn;
  }

  lemma ReadNamed(c: Command)
    requires c.Echo? || c.Get? || c.Exists? || c.Strlen? || c.MGet? || c.Ttl? || c.PTtl?
    ensures Words(c).Some? ==> VerbFor(c) != OTHER && Words(c).value != [] && Words(c).value[0] == VerbName(VerbFor(c))
  {
    hide DecInt, InTurn;
  }

  lemma ServerNamed(c: Command)
    requires c.Ping? || c.Info? || c.BgRewriteAof?
    ensures Words(c).Some? ==> VerbFor(c) != OTHER && Words(c).value != [] && Words(c).value[0] == VerbName(VerbFor(c))
  {
    hide DecInt, InTurn;
  }

  lemma ChannelNamed(c: Command)
    requires c.Subscribe? || c.Unsubscribe? || c.Publish?
    ensures Words(c).Some? ==> VerbFor(c) != OTHER && Words(c).value != [] && Words(c).value[0] == VerbName(VerbFor(c))
  {
    hide DecInt, InTurn;
  }

  // ---- from its arguments ----

  lemma ArgumentsDecode(c: Command, args: seq<Bytes>, now: Millis)
    requires Words(c).Some? && Wellformed(c, now) && ArgumentsOf(args, c) && VerbFor(c) != OTHER
    ensures Decode(VerbFor(c), args, now) == Ok(c)
  {
    hide Decode, VerbName, DecInt, Codec.Decodable, ArgumentsOf, InTurn, VerbFor;
    match c
    case LRange(_, _, _) | LIndex(_, _) => IndexedDecodes(c, args, now);
    case IncrBy(_, _) | DecrBy(_, _) | HIncrBy(_, _, _) => DeltaDecodes(c, args, now);
    case LPop(_, _) | RPop(_, _) => CountDecodes(c, args, now);
    case MSet(_) | HSet(_, _) => PairsDecode(c, args, now);
    case Set(_, _, _) | Del(_) | Incr(_) | Decr(_) | Append(_, _) | Persist(_) => KeyWriteDecodes(c, args, now);
    case LPush(_, _) | RPush(_, _) | HGet(_, _) | HDel(_, _) => ElementsDecode(c, args, now);
    case LLen(_) | HKeys(_) | HVals(_) | HGetAll(_) | HExists(_, _) | HLen(_) => HashDecodes(c, args, now);
    case Echo(_) | Get(_) | Exists(_) | Strlen(_) | MGet(_) | Ttl(_) | PTtl(_) => ReadDecodes(c, args, now);
    case Ping(_) | Info(_) | BgRewriteAof => ServerDecodes(c, args, now);
    case Subscribe(_) | Unsubscribe(_) | Publish(_, _) => ChannelDecodes(c, args, now);
    case _ =>
  }

  /** Without numbers the arguments are the words themselves. */
  lemma PlainArguments(c: Command, args: seq<Bytes>)
    requires Words(c).Some? && Words(c).value != [] && !c.Info? && forall i: nat :: !NumberAt(c, i)
    ensures ArgumentsOf(args, c) <==> args == Words(c).value[1..]
  {
    hide Words, NumberAt, ParseI64, DecInt, Small, Utf8.Valid;
  }

  lemma NumberRead(given: Bytes, n: int)
    requires IsI64(n)
    ensures Same(given, DecInt(n), true, false) <==> ParseI64(given) == Some(n)
  {
    hide ParseI64, DecInt;
    ParseDecInt(n);
    if ParseI64(given).Some? {
      ParseDecInt(ParseI64(given).value);
    }
  }

  lemma IndexedDecodes(c: Command, args: seq<Bytes>, now: Millis)
    requires (c.LRange? || c.LIndex?) && Words(c).Some? && Wellformed(c, now) && ArgumentsOf(args, c)
    ensures VerbFor(c) != OTHER && Decode(VerbFor(c), args, now) == Ok(c)
  {
    hide ParseI64, DecInt;
    match c
    case LRange(_, start, stop) =>
      NumberRead(args[1], start);
      NumberRead(args[2], stop);
    case LIndex(_, index) => NumberRead(args[1], index);
  }

  lemma DeltaDecodes(c: Command, args: seq<Bytes>, now: Millis)
    requires (c.IncrBy? || c.DecrBy? || c.HIncrBy?)
    requires Words(c).Some? && Wellformed(c, now) && ArgumentsOf(args, c)
    ensures VerbFor(c) != OTHER && Decode(VerbFor(c), args, now) == Ok(c)
  {
    hide ParseI64, DecInt;
    match c
    case IncrBy(_, n) => NumberRead(args[1], n);
    case DecrBy(_, n) => NumberRead(args[1], n);
    case HIncrBy(_, _, n) => NumberRead(args[2], n);
  }

  lemma CountDecodes(c: Command, args: seq<Bytes>, now: Millis)
    requires (c.LPop? || c.RPop?)
    requires Words(c).Some? && Wellformed(c, now) && ArgumentsOf(args, c)
    ensures VerbFor(c) != OTHER && Decode(VerbFor(c), args, now) == Ok(c)
  {
    hide ParseI64, DecInt;
    if c.count.Some? {
      NumberRead(args[1], c.count.value);
    }
  }

  lemma PairsDecode(c: Command, args: seq<Bytes>, now: Millis)
    requires (c.MSet? || c.HSet?)
    requires Words(c).Some? && Wellformed(c, now) && ArgumentsOf(args, c)
    ensures VerbFor(c) != OTHER && Decode(VerbFor(c), args, now) == Ok(c)
  {
    hide ParseI64, DecInt, ArgumentsOf, PairUp, Unpair, InTurn;
    var pairs := if c.MSet? then c.pairs else c.fields;
    PlainArguments(c, args);
    UnpairIs(pairs);
    Codec.PairUpInverse(pairs);
    assert c.HSet? ==> args[1..] == InTurn(c.fields);
  }

  lemma KeyWriteDecodes(c: Command, args: seq<Bytes>, now: Millis)
    requires (c.Set? || c.Del? || c.Incr? || c.Decr? || c.Append? || c.Persist?)
    requires Words(c).Some? && Wellformed(c, now) && ArgumentsOf(args, c)
    ensures VerbFor(c) != OTHER && Decode(VerbFor(c), args, now) == Ok(c)
  {
    hide ParseI64, DecInt, ArgumentsOf, InTurn;
    PlainArguments(c, args);
  }

  lemma ElementsDecode(c: Command, args: seq<Bytes>, now: Millis)
    requires (c.LPush? || c.RPush? || c.HGet? || c.HDel?)
    requires Words(c).Some? && Wellformed(c, now) && ArgumentsOf(args, c)
    ensures VerbFor(c) != OTHER && Decode(VerbFor(c), args, now) == Ok(c)
  {
    hide ParseI64, DecInt, ArgumentsOf, InTurn;
    PlainArguments(c, args);
  }

  lemma HashDecodes(c: Command, args: seq<Bytes>, now: Millis)
    requires (c.LLen? || c.HKeys? || c.HVals? || c.HGetAll? || c.HExists? || c.HLen?)
    requires Words(c).Some? && Wellformed(c, now) && ArgumentsOf(args, c)
    ensures VerbFor(c) != OTHER && Decode(VerbFor(c), args, now) == Ok(c)
  {
    hide ParseI64, DecInt, ArgumentsOf, InTurn;
    PlainArguments(c, args);
  }

  lemma ReadDecodes(c: Command, args: seq<Bytes>, now: Millis)
    requires (c.Echo? || c.Get? || c.Exists? || c.Strlen? || c.MGet? || c.Ttl? || c.PTtl?)
    requires Words(c).Some? && Wellformed(c, now) && ArgumentsOf(args, c)
    ensures VerbFor(c) != OTHER && Decode(VerbFor(c), args, now) == Ok(c)
  {
    hide ParseI64, DecInt, ArgumentsOf, InTurn;
    PlainArguments(c, args);
  }

  lemma ServerDecodes(c: Command, args: seq<Bytes>, now: Millis)
    requires (c.Ping? || c.Info? || c.BgRewriteAof?)
    requires Words(c).Some? && Wellformed(c, now) && ArgumentsOf(args, c)
    ensures VerbFor(c) != OTHER && Decode(VerbFor(c), args, now) == Ok(c)
  {
    hide ParseI64, DecInt, Utf8.Valid, Lower, Small;
    if |args| == 1 {
      if c.Info? && c.section.Some? {
        SmallIsLower(args[0], c.section.value);
      }
    }
  }

  lemma ChannelDecodes(c: Command, args: seq<Bytes>, now: Millis)
    requires (c.Subscribe? || c.Unsubscribe? || c.Publish?)
    requires Words(c).Some? && Wellformed(c, now) && ArgumentsOf(args, c)
    ensures VerbFor(c) != OTHER && Decode(VerbFor(c), args, now) == Ok(c)
  {
    hide ParseI64, DecInt, ArgumentsOf, InTurn;
    PlainArguments(c, args);
  }

  // ---- and from nothing else ----

  lemma OnlyArgumentsDecode(verb: Verb, args: seq<Bytes>, now: Millis)
    requires verb != OTHER && Decode(verb, args, now).Ok? && Words(Decode(verb, args, now).value).Some?
    ensures var c := Decode(verb, args, now).value; VerbFor(c) == verb && ArgumentsOf(args, c)
  {
    hide Decode, Words, ArgumentsOf;
    match verb
    case INCRBY | DECRBY | HINCRBY => OnlyDelta(verb, args, now);
    case LPOP | RPOP => OnlyCount(verb, args, now);
    case LRANGE | LINDEX => OnlyIndexes(verb, args, now);
    case MSET | HSET => OnlyPairs(verb, args, now);
    case LPUSH | RPUSH | LLEN | PERSIST | HGET => OnlyPlainArguments(verb, args, now);
    case HDEL | HKEYS | HVALS | HGETALL | HEXISTS | HLEN => OnlyHashArguments(verb, args, now);
    case PING | INFO | BGREWRITEAOF => OnlyServerArguments(verb, args, now);
    case SUBSCRIBE | UNSUBSCRIBE | PUBLISH => OnlyChannels(verb, args, now);
    case SET => OnlyValue(verb, args, now);
    case DEL | INCR | DECR | APPEND | EXISTS | MGET => OnlyStringArguments(verb, args, now);
    case ECHO | GET | STRLEN | TTL | PTTL => OnlyKey(verb, args, now);
    case EXPIRE | PEXPIRE | EXPIREAT | PEXPIREAT => NoWords(verb, args, now);
  }

  lemma NoWords(verb: Verb, args: seq<Bytes>, now: Millis)
    requires verb in {EXPIRE, PEXPIRE, EXPIREAT, PEXPIREAT} && Decode(verb, args, now).Ok?
    ensures Words(Decode(verb, args, now).value).None?
  {
    hide ParseI64, DecInt, ExpireRelativeDeadline, ExpireAbsoluteDeadline;
  }

  lemma OnlyValue(verb: Verb, args: seq<Bytes>, now: Millis)
    requires verb == SET && Decode(verb, args, now).Ok? && Words(Decode(verb, args, now).value).Some?
    ensures var c := Decode(verb, args, now).value; VerbFor(c) == verb && ArgumentsOf(args, c)
  {
    hide ParseI64, DecInt, ArgumentsOf, SetOptionDeadline;
    if |args| > 2 {
      Requests.SetHasOneOption(args, now);
    } else {
      PlainArguments(Decode(verb, args, now).value, args);
    }
  }

  lemma OnlyDelta(verb: Verb, args: seq<Bytes>, now: Millis)
    requires verb in {INCRBY, DECRBY, HINCRBY} && Decode(verb, args, now).Ok?
    ensures var c := Decode(verb, args, now).value; Words(c).Some? && VerbFor(c) == verb && ArgumentsOf(args, c)
  {
    hide ParseI64, DecInt;
  }

  lemma OnlyCount(verb: Verb, args: seq<Bytes>, now: Millis)
    requires verb in {LPOP, RPOP} && Decode(verb, args, now).Ok?
    ensures var c := Decode(verb, args, now).value; Words(c).Some? && VerbFor(c) == verb && ArgumentsOf(args, c)
  {
    hide ParseI64, DecInt;
  }

  lemma OnlyIndexes(verb: Verb, args: seq<Bytes>, now: Millis)
    requires verb in {LRANGE, LINDEX} && Decode(verb, args, now).Ok?
    ensures var c := Decode(verb, args, now).value; Words(c).Some? && VerbFor(c) == verb && ArgumentsOf(args, c)
  {
    hide ParseI64, DecInt;
  }

  lemma OnlyPairs(verb: Verb, args: seq<Bytes>, now: Millis)
    requires verb in {MSET, HSET} && Decode(verb, args, now).Ok?
    ensures var c := Decode(verb, args, now).value; Words(c).Some? && VerbFor(c) == verb && ArgumentsOf(args, c)
  {
    hide ParseI64, DecInt, ArgumentsOf, PairUp, Unpair, InTurn;
    Requests.PairUpUnpairs(if verb == MSET then args else args[1..]);
    UnpairIs(PairUp(if verb == MSET then args else args[1..]));
    PlainArguments(Decode(verb, args, now).value, args);
  }

  lemma OnlyPlainArguments(verb: Verb, args: seq<Bytes>, now: Millis)
    requires verb in {LPUSH, RPUSH, LLEN, PERSIST, HGET} && Decode(verb, args, now).Ok?
    ensures var c := Decode(verb, args, now).value; Words(c).Some? && VerbFor(c) == verb && ArgumentsOf(args, c)
  {
    hide ParseI64, DecInt, ArgumentsOf, InTurn;
    PlainArguments(Decode(verb, args, now).value, args);
  }

  lemma OnlyHashArguments(verb: Verb, args: seq<Bytes>, now: Millis)
    requires verb in {HDEL, HKEYS, HVALS, HGETALL, HEXISTS, HLEN} && Decode(verb, args, now).Ok?
    ensures var c := Decode(verb, args, now).value; Words(c).Some? && VerbFor(c) == verb && ArgumentsOf(args, c)
  {
    hide ParseI64, DecInt, ArgumentsOf, InTurn;
    PlainArguments(Decode(verb, args, now).value, args);
  }

  lemma OnlyServerArguments(verb: Verb, args: seq<Bytes>, now: Millis)
    requires verb in {PING, INFO, BGREWRITEAOF} && Decode(verb, args, now).Ok?
    ensures var c := Decode(verb, args, now).value; Words(c).Some? && VerbFor(c) == verb && ArgumentsOf(args, c)
  {
    hide ParseI64, DecInt, Utf8.Valid, Lower, Small;
    if |args| == 1 {
      SmallIsLower(args[0], Lower(args[0]));
    }
  }

  lemma OnlyChannels(verb: Verb, args: seq<Bytes>, now: Millis)
    requires verb in {SUBSCRIBE, UNSUBSCRIBE, PUBLISH} && Decode(verb, args, now).Ok?
    ensures var c := Decode(verb, args, now).value; Words(c).Some? && VerbFor(c) == verb && ArgumentsOf(args, c)
  {
    hide ParseI64, DecInt, ArgumentsOf, InTurn;
    PlainArguments(Decode(verb, args, now).value, args);
  }

  lemma OnlyStringArguments(verb: Verb, args: seq<Bytes>, now: Millis)
    requires verb in {DEL, INCR, DECR, APPEND, EXISTS, MGET} && Decode(verb, args, now).Ok?
    ensures var c := Decode(verb, args, now).value; Words(c).Some? && VerbFor(c) == verb && ArgumentsOf(args, c)
  {
    hide ParseI64, DecInt, ArgumentsOf, InTurn;
    PlainArguments(Decode(verb, args, now).value, args);
  }

  lemma OnlyKey(verb: Verb, args: seq<Bytes>, now: Millis)
    requires verb in {ECHO, GET, STRLEN, TTL, PTTL} && Decode(verb, args, now).Ok?
    ensures var c := Decode(verb, args, now).value; Words(c).Some? && VerbFor(c) == verb && ArgumentsOf(args, c)
  {
    hide ParseI64, DecInt, ArgumentsOf, InTurn;
    PlainArguments(Decode(verb, args, now).value, args);
  }

  // ---- requests ----

  /** The table of commands, both ways: a request is decoded to a command without a deadline exactly if it has
      the name of the command, in any case of letters, and its arguments in their places. */
  lemma DecodedIffSpelled(f: Frame, c: Command, now: Millis)
    requires Words(c).Some?
    ensures FromFrame(f, now) == Ok(c) <==> Wellformed(c, now) && Spells(f, c)
  {
    hide *;
    if FromFrame(f, now) == Ok(c) {
      DecodedIsSpelled(f, c, now);
    }
    if Wellformed(c, now) && Spells(f, c) {
      SpelledIsDecoded(f, c, now);
    }
  }

  /** A request with its name and arguments taken apart. */
  lemma SpellsParts(name: Bytes, args: seq<Bytes>, c: Command)
    requires Words(c).Some? && Words(c).value != []
    ensures Spells(Request([name] + args), c) <==> Codec.SameLetters(name, Words(c).value[0]) && ArgumentsOf(args, c)
  {
    hide Words, ArgumentsOf, Codec.SameLetters;
    var items := Request([name] + args).items;
    assert seq(|items| - 1, i requires 0 <= i < |items| - 1 => items[i + 1].data) == args;
  }

  lemma SpelledIsDecoded(f: Frame, c: Command, now: Millis)
    requires Words(c).Some? && Wellformed(c, now) && Spells(f, c)
    ensures FromFrame(f, now) == Ok(c)
  {
    hide Words, Wellformed, ArgumentsOf, FromFrame, Decode, VerbFor, VerbName, Codec.SameLetters;
    var name, args := f.items[0].data, seq(|f.items| - 1, i requires 0 <= i < |f.items| - 1 => f.items[i + 1].data);
    assert f.items == Request([name] + args).items;
    Named(c);
    ArgumentsDecode(c, args, now);
    Codec.NamedRequestDecodes(name, VerbFor(c), args, now);
  }

  lemma DecodedIsSpelled(f: Frame, c: Command, now: Millis)
    requires FromFrame(f, now) == Ok(c) && Words(c).Some?
    ensures Wellformed(c, now) && Spells(f, c)
  {
    hide Words, Wellformed, ArgumentsOf, FromFrame, Decode, VerbFor, VerbName, VerbOf, Spells, Codec.SameLetters;
    assert !c.Unknown? by {
      NoWordsForOthers(c);
    }
    var name, args := Requests.DecodedFrom(f, now);
    var verb := VerbOf(Upper(name));
    OnlyArgumentsDecode(verb, args, now);
    Named(c);
    Codec.NameFound(verb);
    Requests.TableName(Upper(name));
    UpperWord(name, VerbName(verb));
    SpellsParts(name, args, c);
    DecodedIsWellformed(f, c, now);
  }

  lemma NoWordsForOthers(c: Command)
    requires Words(c).Some?
    ensures !c.Unknown?
  {
  }

  lemma DecodedIsWellformed(f: Frame, c: Command, now: Millis)
    requires FromFrame(f, now) == Ok(c)
    ensures Wellformed(c, now)
  {
    hide FromFrame, Codec.Decodable, Decode, VerbOf;
    Codec.FromFrameYieldsDecodable(f, now);
    if c.Subscribe? || c.Unsubscribe? || c.Info? {
      var name, args := Requests.DecodedFrom(f, now);
      ServerWellformed(VerbOf(Upper(name)), args, now);
    }
  }

  lemma ServerWellformed(verb: Verb, args: seq<Bytes>, now: Millis)
    requires verb != OTHER && Decode(verb, args, now).Ok?
    ensures var c := Decode(verb, args, now).value;
      && (c.Subscribe? ==> c.channels != [])
      && (c.Unsubscribe? && c.some.Some? ==> c.some.value != [])
      && (c.Info? && c.section.Some? ==> Utf8.Valid(c.section.value) && Lower(c.section.value) == c.section.value)
  {
    hide DecodeSet, ParseI64, PairUp, ExpireRelativeDeadline, ExpireAbsoluteDeadline, Utf8.Valid, Lower;
    if verb == INFO && |args| == 1 {
      LowerTwice(args[0]);
    }
  }

  lemma LowerTwice(s: Bytes)
    ensures Lower(Lower(s)) == Lower(s)
    ensures Utf8.Valid(s) ==> Utf8.Valid(Lower(s))
  {
    hide Lower, Utf8.ValidFrom;
    if Utf8.Valid(s) {
      LowerIsValid(s, 0);
    }
    LowerAgain(s);
  }

  lemma LowerAgain(s: Bytes)
    ensures Lower(Lower(s)) == Lower(s)
  {
  }

  lemma {:induction false} LowerIsValid(s: Bytes, i: nat)
    requires i <= |s| && Utf8.ValidFrom(s, i)
    ensures Utf8.ValidFrom(Lower(s), i)
    decreases |s| - i
  {
    if i < |s| {
      LowerSequence(s, i);
      LowerIsValid(s, i + Utf8.SequenceLen(s, i));
    }
  }

  lemma LowerSequence(s: Bytes, i: nat)
    requires i < |s|
    ensures Utf8.SequenceLen(Lower(s), i) == Utf8.SequenceLen(s, i)
  {
    forall j: nat, lo: int, hi: int | j < |s| && (0x80 <= lo || (lo == 0 && hi == 0x7F))
      ensures Utf8.InRange(Lower(s), j, lo, hi) <==> Utf8.InRange(s, j, lo, hi)
    {
    }
  }

  /** Any name that is in no case of letters one of the table is an unknown command. */
  lemma UnknownIff(name: Bytes, args: seq<Bytes>, now: Millis)
    requires Utf8.Valid(name)
    ensures FromFrame(Request([name] + args), now) == Ok(Unknown(Upper(name)))
       <==> forall verb :: verb != OTHER ==> !Codec.SameLetters(name, VerbName(verb))
  {
    hide FromFrame, Decode, VerbOf, VerbName, Codec.SameLetters, Upper, Utf8.Valid;
    if verb :| verb != OTHER && Codec.SameLetters(name, VerbName(verb)) {
      Codec.NamedRequestDecodes(name, verb, args, now);
      KnownIsNotUnknown(verb, args, now);
    } else {
      var verb := VerbOf(Upper(name));
      if verb != OTHER {
        Requests.TableName(Upper(name));
        Codec.NameFound(verb);
        UpperWord(name, VerbName(verb));
      }
      UnlistedIsUnknown(name, args, now);
    }
  }

  lemma KnownIsNotUnknown(verb: Verb, args: seq<Bytes>, now: Millis)
    requires verb != OTHER
    ensures Decode(verb, args, now).Ok? ==> !Decode(verb, args, now).value.Unknown?
  {
    hide ParseI64, PairUp, SetOptions, ExpireRelativeDeadline, ExpireAbsoluteDeadline, Lower, Utf8.Valid;
  }

  lemma UnlistedIsUnknown(name: Bytes, args: seq<Bytes>, now: Millis)
    requires Utf8.Valid(name) && VerbOf(Upper(name)) == OTHER
    ensures FromFrame(Request([name] + args), now) == Ok(Unknown(Upper(name)))
  {
    hide Decode, VerbOf, Upper, Utf8.Valid;
    Codec.ExpectBulksOf([name] + args, 1);
    assert ([name] + args)[1..] == args;
  }

  // ---- refusals ----

  function Noughts(n: nat): seq<Bytes> {
    seq(n, _ => "0")
  }

  /** Arguments are refused for their number exactly if no arguments of that number would do. */
  lemma ArityIff(verb: Verb, args: seq<Bytes>, now: Millis)
    requires verb != OTHER && verb != SET
    ensures Decode(verb, args, now) == Err(Arity)
       <==> forall other: seq<Bytes> :: |other| == |args| ==> !Decode(verb, other, now).Ok?
  {
    hide Decode;
    NoughtsDo(verb, |args|, now);
    forall other: seq<Bytes> | |other| == |args|
      ensures Decode(verb, other, now) == Err(Arity) <==> Decode(verb, args, now) == Err(Arity)
    {
      OnlyTheNumber(verb, args, other, now);
    }
  }

  lemma NoughtsDo(verb: Verb, n: nat, now: Millis)
    requires verb != OTHER && verb != SET
    ensures var r := Decode(verb, Noughts(n), now); r.Ok? || r == Err(Arity)
  {
    hide ParseI64, PairUp, Lower, Utf8.Valid, DecodeSet;
    ParseZero();
    ZeroIsValid();
  }

  lemma ZeroIsValid()
    ensures Utf8.Valid("0")
  {
    Utf8.AsciiIsValid("0", 0);
  }

  lemma OnlyTheNumber(verb: Verb, args: seq<Bytes>, other: seq<Bytes>, now: Millis)
    requires verb != OTHER && verb != SET && |other| == |args|
    ensures Decode(verb, other, now) == Err(Arity) <==> Decode(verb, args, now) == Err(Arity)
  {
    hide ParseI64, PairUp, Lower, Utf8.Valid, DecodeSet, ExpireRelativeDeadline, ExpireAbsoluteDeadline;
    if verb in {EXPIRE, PEXPIRE, EXPIREAT, PEXPIREAT} && |args| == 2 {
      ExpiryErrors(verb, args, now);
      ExpiryErrors(verb, other, now);
    }
  }

  lemma ExpiryErrors(verb: Verb, args: seq<Bytes>, now: Millis)
    requires verb in {EXPIRE, PEXPIRE, EXPIREAT, PEXPIREAT} && |args| == 2
    ensures Decode(verb, args, now) != Err(Arity)
  {
    hide ParseI64;
  }

  predicate NumberPlace(verb: Verb, i: nat) {
    match verb
    case INCRBY | DECRBY | LPOP | RPOP | LINDEX => i == 1
    case LRANGE => i == 1 || i == 2
    case HINCRBY => i == 2
    case _ => false
  }

  /** With the right number of arguments, a command that takes numbers is refused exactly if one of them does not read
      as a number, or if it is a negative count. */
  lemma NumbersRefused(verb: Verb, args: seq<Bytes>, now: Millis)
    requires verb in {INCRBY, DECRBY, HINCRBY, LPOP, RPOP, LRANGE, LINDEX} && Decode(verb, args, now) != Err(Arity)
    ensures var r := Decode(verb, args, now);
      if exists i :: 0 <= i < |args| && NumberPlace(verb, i) && ParseI64(args[i]).None? then r == Err(NotInt)
      else if verb in {LPOP, RPOP} && |args| == 2 && ParseI64(args[1]).value < 0 then r == Err(OutOfRangePositive)
      else r.Ok?
  {
    hide ParseI64;
    assert |args| > 1 ==> NumberPlace(verb, 1) || verb == HINCRBY;
    assert |args| > 2 ==> NumberPlace(verb, 2) || verb != LRANGE;
  }

  lemma {:induction false} FirstOther(items: seq<Frame>, i: nat)
    requires i <= |items|
    ensures var r := ExpectBulks(items, i);
      if r.Ok? then forall j :: i <= j < |items| ==> items[j].Bulk?
      else
        && r.error.NotBulk? && i <= r.error.index < |items| && !items[r.error.index].Bulk?
        && forall j :: i <= j < r.error.index ==> items[j].Bulk?
    decreases |items| - i
  {
    if i < |items| && items[i].Bulk? {
      FirstOther(items, i + 1);
    }
  }

  lemma ArgumentErrors(name: Bytes, args: seq<Bytes>, now: Millis)
    ensures var r := DecodeNamed(name, args, now);
      r.Err? ==> r.error in {Arity, NotInt, InvalidExpireTime, OutOfRangePositive, Syntax}
  {
    hide VerbOf, ParseI64, PairUp, Lower, Utf8.Valid, DecodeSet;
    if VerbOf(name) == SET {
      SetErrors(args, 2, None, now);
    }
  }

  lemma {:induction false} SetErrors(args: seq<Bytes>, i: nat, seen: Option<Millis>, now: Millis)
    ensures |args| < 2 ==> DecodeSet(args, now) == Err(Arity)
    ensures i <= |args| ==> var r := SetOptions(args, i, seen, now); r.Err? ==> r.error in {NotInt, InvalidExpireTime, Syntax}
    ensures i == 2 && seen == None ==>
      var r := DecodeSet(args, now); r.Err? ==> r.error in {Arity, NotInt, InvalidExpireTime, Syntax}
    decreases |args| - i
  {
    hide ParseI64;
    if i + 2 <= |args| && DecodeInt(args[i + 1]).Ok? {
      var deadline := SetOptionDeadline(Upper(args[i]), DecodeInt(args[i + 1]).value, now);
      if deadline.Ok? {
        SetErrors(args, i + 2, Some(deadline.value), now);
      }
    }
  }

  /** What is no request at all is refused for what it lacks first: an array, with items, the first of them a bulk
      string, that one text, and then the first of the others that is no bulk string. */
  lemma MalformedIff(f: Frame, now: Millis)
    ensures var r := FromFrame(f, now);
      if !f.Array? then r == Err(NotArray)
      else if f.items == [] then r == Err(Empty)
      else if !f.items[0].Bulk? then r == Err(NotBulk(0))
      else if !Utf8.Valid(f.items[0].data) then r == Err(BadName)
      else if exists j :: 0 < j < |f.items| && !f.items[j].Bulk? then
        && r.Err? && r.error.NotBulk? && 0 < r.error.index < |f.items| && !f.items[r.error.index].Bulk?
        && forall j :: 0 < j < r.error.index ==> f.items[j].Bulk?
      else r.Err? ==> r.error in {Arity, NotInt, InvalidExpireTime, OutOfRangePositive, Syntax}
  {
    hide DecodeNamed, Upper, Utf8.Valid, ExpectBulks;
    if f.Array? && f.items != [] && f.items[0].Bulk? {
      FirstOther(f.items, 1);
      if ExpectBulks(f.items, 1).Ok? {
        ArgumentErrors(Upper(f.items[0].data), ExpectBulks(f.items, 1).value, now);
      }
    }
  }
}
