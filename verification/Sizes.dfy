/** Sizes: what arrives fits a reply, so what is stored fits a reply, so every reply fits. */
module Sizes {
  import opened Base
  import opened Limits
  import opened Frames
  import opened Commands
  import opened Semantics
  import opened Parser
  import opened Laws
  import Codec
  import Requests

  predicate AllFit(args: seq<Bytes>) {
    forall i :: 0 <= i < |args| ==> BulkResponseFits(|args[i]|)
  }

  // ---- what arrives fits ----

  /** Every bulk string a received frame carries could be sent back. */
  predicate BulksFit(f: Frame) {
    && (f.Bulk? ==> BulkResponseFits(|f.data|))
    && (f.Array? ==> forall i :: 0 <= i < |f.items| ==> (f.items[i].Bulk? ==> BulkResponseFits(|f.items[i].data|)))
  }

  lemma {:induction false} ParseFrameFits(buf: Bytes, pos: nat, depth: nat)
    requires pos <= |buf|
    ensures var r := ParseFrame(buf, pos, depth, true); r.Done? ==> BulksFit(r.value)
    decreases |buf| - pos, 0, 0
  {
    hide ReadLineInt, ReadLineString;
    if depth <= MAX_NESTING_DEPTH && pos < |buf| && buf[pos] == '*' {
      var count := ReadLineInt(buf, pos + 1, true);
      if count.Done? && 0 <= count.value <= MAX_ARRAY_LEN {
        ParseItemsFit(buf, count.pos, depth + 1, count.value);
      }
    }
  }

  lemma {:induction false} ParseItemsFit(buf: Bytes, pos: nat, depth: nat, count: nat)
    requires pos <= |buf|
    ensures var r := ParseItems(buf, pos, depth, count, true);
      r.Done? ==> forall i :: 0 <= i < |r.value| ==> BulksFit(r.value[i])
    decreases |buf| - pos, 1, count
  {
    hide ParseFrame, BulksFit;
    if count > 0 {
      ParseFrameFits(buf, pos, depth);
      var first := ParseFrame(buf, pos, depth, true);
      if first.Done? {
        ParseItemsFit(buf, first.pos, depth, count - 1);
        var rest, whole := ParseItems(buf, first.pos, depth, count - 1, true), ParseItems(buf, pos, depth, count, true);
        if rest.Done? {
          assert whole.value == [first.value] + rest.value;
          forall i | 0 <= i < |whole.value|
            ensures BulksFit(whole.value[i])
          {
            assert i > 0 ==> whole.value[i] == rest.value[i - 1];
          }
        }
      }
    }
  }

  lemma {:induction false} PartBelowTotal(args: seq<Bytes>, i: nat)
    requires i < |args|
    ensures |args[i]| <= Requests.TotalLen(args)
  {
    if i > 0 {
      PartBelowTotal(args[1..], i - 1);
    }
  }

  lemma ShortFits(len: nat)
    requires len <= MAX_LINE_LEN
    ensures BulkResponseFits(len)
  {
    DecLenUsize(len);
  }

  /** Every frame the parser yields carries only bulk strings that fit a reply. */
  lemma {:induction false} ReceivedFits(buf: Bytes)
    ensures var r := Parse(buf, true); r.Got? ==> BulksFit(r.frame)
    decreases |buf|
  {
    hide ParseFrame, SplitArgs, BulkResponseFits;
    if buf == [] {
    } else if IsRespType(buf[0]) {
      ParseFrameFits(buf, 0, 0);
    } else {
      match ParseInline(buf)
      case BlankLine(next) => ReceivedFits(buf[next..]);
      case CommandLine(frame, next) =>
        var line := ChompCr(buf[..next - 1]);
        Requests.ArgsLength(line, 0);
        forall i | 0 <= i < |frame.items|
          ensures frame.items[i].Bulk? ==> BulkResponseFits(|frame.items[i].data|)
        {
          PartBelowTotal(SplitArgs(line, 0).value, i);
          ShortFits(|frame.items[i].data|);
        }
      case _ =>
    }
  }

  // ---- what is stored fits ----

  /** The arguments a command stores unchecked fit a reply. */
  predicate ArgsFit(c: Command) {
    match c
    case Ping(message) => message.Some? ==> BulkResponseFits(|message.value|)
    case Echo(message) => BulkResponseFits(|message|)
    case Append(_, value) => BulkResponseFits(|value|)
    case LPush(_, values) => AllFit(values)
    case RPush(_, values) => AllFit(values)
    case HSet(_, fields) => forall i :: 0 <= i < |fields| ==> BulkResponseFits(|fields[i].0|) && BulkResponseFits(|fields[i].1|)
    case HIncrBy(_, field, _) => BulkResponseFits(|field|)
    case _ => true
  }

  lemma {:induction false} ExpectBulksFit(items: seq<Frame>, i: nat)
    requires i <= |items| && BulksFit(Array(items))
    ensures var r := ExpectBulks(items, i); r.Ok? ==> AllFit(r.value)
    decreases |items| - i
  {
    hide BulkResponseFits;
    if i < |items| {
      ExpectBulksFit(items, i + 1);
    }
  }

  lemma {:induction false} PairUpFits(args: seq<Bytes>)
    requires AllFit(args)
    ensures forall i :: 0 <= i < |PairUp(args)| ==>
      BulkResponseFits(|PairUp(args)[i].0|) && BulkResponseFits(|PairUp(args)[i].1|)
  {
    hide BulkResponseFits;
    if |args| >= 2 {
      assert forall i :: 0 <= i < |args[2..]| ==> args[2..][i] == args[i + 2];
      PairUpFits(args[2..]);
    }
  }

  lemma DecodedFits(f: Frame, now: Millis)
    requires BulksFit(f)
    ensures var r := FromFrame(f, now); r.Ok? ==> ArgsFit(r.value)
  {
    hide BulkResponseFits, VerbOf, Decode, ParseI64;
    if f.Array? && f.items != [] && f.items[0].Bulk? {
      ExpectBulksFit(f.items, 1);
      var rest := ExpectBulks(f.items, 1);
      var verb := VerbOf(Upper(f.items[0].data));
      if rest.Ok? && verb != OTHER {
        DecodeFits(verb, rest.value, now);
      }
    }
  }

  lemma DecodeFits(verb: Verb, args: seq<Bytes>, now: Millis)
    requires verb != OTHER && AllFit(args)
    ensures var r := Decode(verb, args, now); r.Ok? ==> ArgsFit(r.value)
  {
    if verb in {PING, ECHO, APPEND, LPUSH, RPUSH, HSET, HINCRBY} {
      StoredArgsFit(verb, args, now);
    } else if verb !in {HGET, HDEL, HKEYS, HVALS, HGETALL, HEXISTS, HLEN, SUBSCRIBE, UNSUBSCRIBE, PUBLISH, INFO, BGREWRITEAOF} {
      CheckedArgsFit(verb, args, now);
    }
  }

  lemma CheckedArgsFit(verb: Verb, args: seq<Bytes>, now: Millis)
    requires verb in {GET, SET, DEL, EXISTS, INCR, DECR, INCRBY, DECRBY, STRLEN, MGET, MSET, EXPIRE, PEXPIRE, EXPIREAT, PEXPIREAT,
                      TTL, PTTL, PERSIST, LPOP, RPOP, LRANGE, LLEN, LINDEX}
    ensures var r := Decode(verb, args, now); r.Ok? ==> ArgsFit(r.value)
  {
    hide BulkResponseFits, ParseI64, DecodeInt, DecodeSet, DecodeCount, PairUp, ExpireRelativeDeadline, ExpireAbsoluteDeadline,
         AllFit;
    match verb
    case GET | SET | DEL | EXISTS | INCR | DECR | INCRBY | DECRBY | STRLEN | MGET | MSET =>
    case EXPIRE | PEXPIRE | EXPIREAT | PEXPIREAT | TTL | PTTL | PERSIST =>
    case LPOP | RPOP | LRANGE | LLEN | LINDEX =>
  }

  lemma StoredArgsFit(verb: Verb, args: seq<Bytes>, now: Millis)
    requires verb in {PING, ECHO, APPEND, LPUSH, RPUSH, HSET, HINCRBY} && AllFit(args)
    ensures var r := Decode(verb, args, now); r.Ok? ==> ArgsFit(r.value)
  {
    hide BulkResponseFits, VerbOf, ParseI64, DecodeInt, DecodeSet, DecodeCount, PairUp;
    if args != [] {
      assert AllFit(args[1..]);
      PairUpFits(args[1..]);
    }
  }

  predicate ValueFits(v: Value) {
    match v
    case Str(bytes) => BulkResponseFits(|bytes|)
    case List(items) => items != [] && AllFit(items)
    case Hash(fields) =>
      fields != map[] && forall f :: f in fields ==> BulkResponseFits(|f|) && BulkResponseFits(|fields[f]|)
  }

  /** No list or hash is empty, and every stored string could be sent back. */
  predicate Sane(m: Keyspace) {
    forall k :: k in m ==> ValueFits(m[k].value)
  }

  predicate EntryFits(e: Option<Entry>) {
    e.Some? ==> ValueFits(e.value.value)
  }

  lemma {:induction false} WithFieldsFit(fields: map<Bytes, Bytes>, pairs: seq<(Bytes, Bytes)>)
    requires forall f :: f in fields ==> BulkResponseFits(|f|) && BulkResponseFits(|fields[f]|)
    requires forall i :: 0 <= i < |pairs| ==> BulkResponseFits(|pairs[i].0|) && BulkResponseFits(|pairs[i].1|)
    ensures var r := WithFields(fields, pairs);
      && (forall f :: f in r ==> BulkResponseFits(|f|) && BulkResponseFits(|r[f]|))
      && fields.Keys <= r.Keys
      && (pairs != [] ==> pairs[0].0 in r)
    decreases |pairs|
  {
    hide BulkResponseFits;
    if pairs != [] {
      WithFieldsFit(fields[pairs[0].0 := pairs[0].1], pairs[1..]);
    }
  }

  lemma NumberFits(n: int)
    requires IsI64(n)
    ensures |DecInt(n)| <= 21 && BulkResponseFits(|DecInt(n)|)
  {
    DecLenUsize(if n < 0 then -n else n);
    ShortFits(|DecInt(n)|);
  }

  lemma KeyExecFits(c: Command, cur: Option<Entry>, now: Millis)
    requires Keyed(c) && Codec.Decodable(c, now) && ArgsFit(c) && EntryFits(cur)
    ensures EntryFits(KeyExec(c, cur, now).entry)
  {
    hide AddTo, AppendTo, AddToField, PushTo, PopFrom, SetFields, DeleteFields, BulkResponseFits;
    if !c.IsWrite() {
      KeyReadsChangeNothing(c, cur, now);
    } else {
      match c
      case HIncrBy(_, field, n) => AddToFieldFits(cur, field, n);
      case Incr(_) => AddToFits(cur, 1);
      case Decr(_) => AddToFits(cur, -1);
      case IncrBy(_, n) => AddToFits(cur, n);
      case DecrBy(_, n) => AddToFits(cur, -n);
      case Append(_, value) => AppendToFits(cur, value);
      case LPush(_, values) => PushFits(cur, values, true);
      case RPush(_, values) => PushFits(cur, values, false);
      case LPop(_, count) => PopFits(cur, count, true);
      case RPop(_, count) => PopFits(cur, count, false);
      case HSet(_, fields) => SetFieldsFit(cur, fields);
      case HDel(_, names) => DeleteFieldsFit(cur, names);
      case _ =>
    }
  }

  lemma AppendToFits(cur: Option<Entry>, value: Bytes)
    requires EntryFits(cur) && BulkResponseFits(|value|)
    ensures EntryFits(AppendTo(cur, value).entry)
  {
    hide BulkResponseFits;
    ShortFits(0);
  }

  lemma AddToFits(cur: Option<Entry>, delta: int)
    requires EntryFits(cur)
    ensures EntryFits(AddTo(cur, delta).entry)
  {
    hide BulkResponseFits, ParseI64, DecInt;
    ShortFits(1);
    forall n | IsI64(n)
      ensures BulkResponseFits(|DecInt(n)|)
    {
      NumberFits(n);
    }
  }

  lemma AddToFieldFits(cur: Option<Entry>, field: Bytes, delta: int)
    requires BulkResponseFits(|field|) && EntryFits(cur)
    ensures EntryFits(AddToField(cur, field, delta).entry)
  {
    hide BulkResponseFits, ParseI64, DecInt;
    ShortFits(1);
    forall n | IsI64(n)
      ensures BulkResponseFits(|DecInt(n)|)
    {
      NumberFits(n);
    }
  }

  predicate FieldsFit(fields: map<Bytes, Bytes>) {
    forall f :: f in fields ==> BulkResponseFits(|f|) && BulkResponseFits(|fields[f]|)
  }

  lemma HashFits(fields: map<Bytes, Bytes>)
    ensures ValueFits(Hash(fields)) <==> fields != map[] && FieldsFit(fields)
  {
    hide BulkResponseFits;
  }

  lemma SetFieldsFit(cur: Option<Entry>, pairs: seq<(Bytes, Bytes)>)
    requires EntryFits(cur) && pairs != []
    requires forall i :: 0 <= i < |pairs| ==> BulkResponseFits(|pairs[i].0|) && BulkResponseFits(|pairs[i].1|)
    ensures EntryFits(SetFields(cur, pairs).entry)
  {
    hide BulkResponseFits, ValueFits, WithFields, AddedFields;
    var fields := if cur.Some? && cur.value.value.Hash? then cur.value.value.fields else map[];
    HashFits(fields);
    WithFieldsFit(fields, pairs);
    HashFits(WithFields(fields, pairs));
  }

  lemma DeleteFieldsFit(cur: Option<Entry>, names: seq<Bytes>)
    requires EntryFits(cur)
    ensures EntryFits(DeleteFields(cur, names).entry)
  {
    hide BulkResponseFits, ValueFits, RemovedFields;
    if cur.Some? && cur.value.value.Hash? {
      var fields := cur.value.value.fields;
      HashFits(fields);
      HashFits(fields - (set n | n in names));
    }
  }

  lemma PushFits(cur: Option<Entry>, values: seq<Bytes>, left: bool)
    requires EntryFits(cur) && AllFit(values) && values != []
    ensures EntryFits(PushTo(cur, values, left).entry)
  {
    hide BulkResponseFits;
  }

  lemma PopFits(cur: Option<Entry>, count: Option<nat>, left: bool)
    requires EntryFits(cur)
    ensures EntryFits(PopFrom(cur, count, left).entry)
  {
    hide BulkResponseFits, Encode, Popped;
  }

  /** Commands keep the keyspace sane. */
  lemma ExecKeepsSane(c: Command, m: Keyspace, now: Millis)
    requires Sane(m) && Codec.Decodable(c, now) && ArgsFit(c)
    ensures Sane(Exec(c, m, now).db)
  {
    hide KeyExec, BulkResponseFits;
    if Keyed(c) {
      KeyExecFits(c, Lookup(m, c.key), now);
    } else if c.Del? {
      DelAllIs(m, c.keys);
    } else if c.MSet? {
      SetAllKeys(m, c.pairs);
    }
  }

  /** An APPEND that arrived as a frame never leaves an empty string behind. */
  lemma ReceivedErrorsChangeNothing(buf: Bytes, m: Keyspace, now: Millis)
    requires Parse(buf, true).Got? && FromFrame(Parse(buf, true).frame, now).Ok?
    ensures var c := FromFrame(Parse(buf, true).frame, now).value;
      Exec(c, m, now).reply.Error? ==> Exec(c, m, now).db == m
  {
    hide Parse, FromFrame, Exec, BulkResponseFits;
    var f := Parse(buf, true).frame;
    ReceivedFits(buf);
    DecodedFits(f, now);
    Codec.FromFrameYieldsDecodable(f, now);
    var c := FromFrame(f, now).value;
    if Exec(c, m, now).reply.Error? {
      ErrorsChangeNothing(c, m, now);
    }
  }

  // ---- every reply fits ----

  predicate ReplyFits(f: Frame) {
    |Encode(f)| <= MAX_RESPONSE_FRAME_BYTES
  }

  lemma SmallReplyFits(f: Frame)
    requires f.Integer? ==> IsI64(f.n)
    requires f.Bulk? ==> BulkResponseFits(|f.data|)
    requires f.Error? ==> |f.message| <= 100
    requires f.Simple? ==> |f.text| <= 100
    requires f.Array? ==> f.items == []
    ensures ReplyFits(f)
  {
    if f.Integer? {
      NumberFits(f.n);
    } else if f.Array? {
      DecLenUsize(0);
      assert EncodeAll([]) == [];
    }
  }

  /** Replies that are not a number, a small constant or a stored string are checked. */
  predicate Plain(f: Frame) {
    && (f.Bulk? ==> BulkResponseFits(|f.data|))
    && (f.Error? ==> |f.message| <= 100)
    && (f.Simple? ==> |f.text| <= 100)
    && (f.Array? ==> f.items == [] || ReplyFits(f))
  }

  lemma PlainFits(f: Frame)
    requires Plain(f) && (f.Integer? ==> IsI64(f.n))
    ensures ReplyFits(f)
  {
    if !f.Array? || f.items == [] {
      SmallReplyFits(f);
    }
  }

  lemma KeyReplyPlain(c: Command, cur: Option<Entry>, now: Millis)
    requires Keyed(c) && EntryFits(cur)
    ensures Plain(KeyExec(c, cur, now).reply)
  {
    hide PopFrom, RangeReply, ListingReply, EntryFits, Plain;
    if c.IsWrite() && !c.LPop? && !c.RPop? {
      WriteReplyPlain(c, cur, now);
    } else {
      match c
      case LPop(_, count) => PopReplyPlain(cur, count, true);
      case RPop(_, count) => PopReplyPlain(cur, count, false);
      case LRange(_, start, stop) => RangePlain(cur, start, stop);
      case HKeys(_) | HVals(_) | HGetAll(_) => ListingPlain(c, cur);
      case _ => ScalarReplyPlain(c, cur, now);
    }
  }

  lemma WriteReplyPlain(c: Command, cur: Option<Entry>, now: Millis)
    requires Keyed(c) && c.IsWrite() && !c.LPop? && !c.RPop?
    ensures Plain(KeyExec(c, cur, now).reply)
  {
    hide BulkResponseFits, ParseI64, DecInt, WithFields, AddedFields, RemovedFields, Reverse, Encode;
  }

  lemma ScalarReplyPlain(c: Command, cur: Option<Entry>, now: Millis)
    requires Keyed(c) && !c.IsWrite() && !c.LRange? && !c.HKeys? && !c.HVals? && !c.HGetAll? && EntryFits(cur)
    ensures Plain(KeyExec(c, cur, now).reply)
  {
    hide BulkResponseFits, Encode, Slice, ListingReply, RangeReply;
  }

  lemma PopReplyPlain(cur: Option<Entry>, count: Option<nat>, left: bool)
    requires EntryFits(cur)
    ensures Plain(PopFrom(cur, count, left).reply)
  {
    hide Encode, BulkResponseFits;
  }

  lemma RangePlain(cur: Option<Entry>, start: int, stop: int)
    ensures Plain(RangeReply(cur, start, stop))
  {
    hide Encode, Slice, BulkResponseFits;
  }

  lemma ListingPlain(c: Command, cur: Option<Entry>)
    ensures Plain(ListingReply(c, cur))
  {
    hide Encode, ValuesIn, Interleave, BulkResponseFits;
  }

  /** Every reply to a data command fits the output limit, given that counts fit an i64. */
  lemma RepliesFit(c: Command, m: Keyspace, now: Millis)
    requires Sane(m) && ArgsFit(c) && !c.Unknown? && !c.Info?
    requires Exec(c, m, now).reply.Integer? ==> IsI64(Exec(c, m, now).reply.n)
    ensures ReplyFits(Exec(c, m, now).reply)
  {
    hide KeyExec, ValueFits, BulkResponseFits, DelCount, ExistsCount, MGetItems;
    var reply := Exec(c, m, now).reply;
    if Keyed(c) {
      KeyReplyPlain(c, Lookup(m, c.key), now);
      PlainFits(reply);
    } else if !c.MGet? {
      SmallReplyFits(reply);
    }
  }

  // ---- over whole runs ----

  /** One request: what stands at the front of a buffer, decoded and applied if it can be. */
  ghost function OneServed(m: Keyspace, buf: Bytes, at: Millis): Keyspace {
    var p := Parse(buf, true);
    if p.Got? && FromFrame(p.frame, at).Ok? then Step(m, FromFrame(p.frame, at).value, at).db else m
  }

  ghost function AllServed(m: Keyspace, arrivals: seq<(Bytes, Millis)>): Keyspace
    decreases |arrivals|
  {
    if arrivals == [] then m else AllServed(OneServed(m, arrivals[0].0, arrivals[0].1), arrivals[1..])
  }

  lemma {:induction false} ServedStaysSane(m: Keyspace, arrivals: seq<(Bytes, Millis)>)
    requires Sane(m)
    ensures Sane(AllServed(m, arrivals))
    decreases |arrivals|
  {
    hide OneServed, ValueFits;
    if arrivals != [] {
      OneServedStaysSane(m, arrivals[0].0, arrivals[0].1);
      ServedStaysSane(OneServed(m, arrivals[0].0, arrivals[0].1), arrivals[1..]);
    }
  }

  lemma OneServedStaysSane(m: Keyspace, buf: Bytes, at: Millis)
    requires Sane(m)
    ensures Sane(OneServed(m, buf, at))
  {
    hide Parse, FromFrame, Exec, ValueFits, ArgsFit, Codec.Decodable;
    var p := Parse(buf, true);
    if p.Got? && FromFrame(p.frame, at).Ok? {
      ReceivedArgsFit(buf, at);
      ExecKeepsSane(FromFrame(p.frame, at).value, Live(m, at), at);
    }
  }

  lemma ReceivedArgsFit(buf: Bytes, at: Millis)
    requires Parse(buf, true).Got? && FromFrame(Parse(buf, true).frame, at).Ok?
    ensures var c := FromFrame(Parse(buf, true).frame, at).value; ArgsFit(c) && Codec.Decodable(c, at)
  {
    hide Parse, FromFrame, BulksFit, ArgsFit, Codec.Decodable;
    ReceivedFits(buf);
    DecodedFits(Parse(buf, true).frame, at);
    Codec.FromFrameYieldsDecodable(Parse(buf, true).frame, at);
  }

  /** After any requests, every data command that arrives gets a reply of at most 64 MiB, counts being
      machine integers. */
  lemma EveryReplyFits(arrivals: seq<(Bytes, Millis)>, buf: Bytes, at: Millis)
    requires Parse(buf, true).Got? && FromFrame(Parse(buf, true).frame, at).Ok?
    requires var c := FromFrame(Parse(buf, true).frame, at).value;
      var r := Step(AllServed(map[], arrivals), c, at).reply;
      !c.Unknown? && !c.Info? && (r.Integer? ==> IsI64(r.n))
    ensures ReplyFits(Step(AllServed(map[], arrivals), FromFrame(Parse(buf, true).frame, at).value, at).reply)
  {
    hide Parse, FromFrame, Exec, ValueFits, ArgsFit, AllServed, ReplyFits, Codec.Decodable;
    ServedStaysSane(map[], arrivals);
    ReceivedArgsFit(buf, at);
    RepliesFit(FromFrame(Parse(buf, true).frame, at).value, Live(AllServed(map[], arrivals), at), at);
  }
}
