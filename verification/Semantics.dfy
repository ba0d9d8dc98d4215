/** What each command does to one plain map from keys to values with deadlines (`src/cmd`).
    The map never holds an expired key; the clock is an argument. */
module Semantics {
  import opened Base
  import opened Limits
  import opened Frames
  import opened Commands
  import Parser

  datatype Value = Str(bytes: Bytes) | List(items: seq<Bytes>) | Hash(fields: map<Bytes, Bytes>)

  datatype Entry = Entry(value: Value, expiresAt: Option<Millis>)

  type Keyspace = map<Bytes, Entry>

  // ---- the live view ----

  predicate Expired(e: Entry, now: Millis) {
    e.expiresAt.Some? && now >= e.expiresAt.value
  }

  /** The live view of a keyspace: expired keys are absent. */
  function Live(m: Keyspace, now: Millis): Keyspace {
    map k | k in m && !Expired(m[k], now) :: m[k]
  }

  function Lookup(m: Keyspace, key: Bytes): Option<Entry> {
    if key in m then Some(m[key]) else None
  }

  function Put(m: Keyspace, key: Bytes, e: Option<Entry>): Keyspace {
    if e.Some? then m[key := e.value] else m - {key}
  }

  function Fresh(e: Option<Entry>, now: Millis): Option<Entry> {
    if e.Some? && Expired(e.value, now) then None else e
  }

  // ---- replies ----

  const OK: Frame := Simple("OK")
  const WRONG_TYPE: Frame := Error("WRONGTYPE Operation against a key holding the wrong kind of value")
  const NOT_INT: Frame := Error("ERR value is not an integer or out of range")
  const HASH_NOT_INT: Frame := Error("ERR hash value is not an integer")
  const OVERFLOW: Frame := Error("ERR increment or decrement would overflow")
  const TOO_LARGE: Frame := Error("ERR response exceeds output limit of 67108864 bytes")
  const NO_AOF: Frame := Error("ERR AOF is not enabled")
  const NOT_HERE: Frame := Error("ERR SUBSCRIBE/UNSUBSCRIBE must be handled by connection")

  /** The reply, or a refusal when it would exceed the output limit. */
  function Bounded(f: Frame): Frame {
    if |Encode(f)| <= MAX_RESPONSE_FRAME_BYTES then f else TOO_LARGE
  }

  function BulkArray(items: seq<Bytes>): Frame {
    Array(Parser.Bulks(items))
  }

  // ---- one key ----

  /** What a command leaves at its key (`None`: nothing) and what it replies. */
  datatype Outcome = Outcome(entry: Option<Entry>, reply: Frame)

  /** Commands about a single key. */
  predicate Keyed(c: Command) {
    c.Get? || c.Set? || c.Incr? || c.Decr? || c.IncrBy? || c.DecrBy? || c.Append? || c.Strlen? ||
    c.Expire? || c.PExpire? || c.PExpireAt? || c.Ttl? || c.PTtl? || c.Persist? ||
    c.LPush? || c.RPush? || c.LPop? || c.RPop? || c.LRange? || c.LLen? || c.LIndex? ||
    c.HSet? || c.HGet? || c.HDel? || c.HKeys? || c.HVals? || c.HGetAll? || c.HExists? || c.HLen? || c.HIncrBy?
  }

  /** The effect on a key that is absent or not expired. */
  ghost function KeyExec(c: Command, cur: Option<Entry>, now: Millis): Outcome
    requires Keyed(c)
  {
    match c
    case Get(_) => Outcome(cur, GetReply(cur))
    case Set(_, value, expiresAt) =>
      if !BulkResponseFits(|value|) then Outcome(cur, TOO_LARGE)
      else Outcome(Fresh(Some(Entry(Str(value), expiresAt)), now), OK)
    case Incr(_) => AddTo(cur, 1)
    case Decr(_) => AddTo(cur, -1)
    case IncrBy(_, n) => AddTo(cur, n)
    case DecrBy(_, n) => if IsI64(-n) then AddTo(cur, -n) else Outcome(cur, OVERFLOW)
    case Append(_, suffix) => AppendTo(cur, suffix)
    case Strlen(_) => Outcome(cur, StrlenReply(cur))
    case Expire(_, deadline) => ExpireTo(cur, deadline, now)
    case PExpire(_, deadline) => ExpireTo(cur, deadline, now)
    case PExpireAt(_, deadline) => ExpireTo(cur, deadline, now)
    case Ttl(_) => Outcome(cur, TtlReply(cur, false, now))
    case PTtl(_) => Outcome(cur, TtlReply(cur, true, now))
    case Persist(_) =>
      if cur.Some? && cur.value.expiresAt.Some? then Outcome(Some(cur.value.(expiresAt := None)), Integer(1))
      else Outcome(cur, Integer(0))
    case LPush(_, values) => PushTo(cur, values, true)
    case RPush(_, values) => PushTo(cur, values, false)
    case LPop(_, count) => PopFrom(cur, count, true)
    case RPop(_, count) => PopFrom(cur, count, false)
    case LRange(_, start, stop) => Outcome(cur, RangeReply(cur, start, stop))
    case LLen(_) => Outcome(cur, LenReply(cur))
    case LIndex(_, idx) => Outcome(cur, IndexReply(cur, idx))
    case HSet(_, fields) => SetFields(cur, fields)
    case HGet(_, field) => Outcome(cur, FieldReply(cur, field))
    case HDel(_, names) => DeleteFields(cur, names)
    case HKeys(_) => Outcome(cur, ListingReply(c, cur))
    case HVals(_) => Outcome(cur, ListingReply(c, cur))
    case HGetAll(_) => Outcome(cur, ListingReply(c, cur))
    case HExists(_, field) => Outcome(cur, FieldExistsReply(cur, field))
    case HLen(_) => Outcome(cur, FieldCountReply(cur))
    case HIncrBy(_, field, n) => AddToField(cur, field, n)
  }

  // Strings.

  function GetReply(cur: Option<Entry>): Frame {
    if cur.None? then Null else if cur.value.value.Str? then Bulk(cur.value.value.bytes) else WRONG_TYPE
  }

  function StrlenReply(cur: Option<Entry>): Frame {
    if cur.None? then Integer(0) else if cur.value.value.Str? then Integer(|cur.value.value.bytes|) else WRONG_TYPE
  }

  function AddTo(cur: Option<Entry>, delta: int): Outcome {
    var e := if cur.Some? then cur.value else Entry(Str("0"), None);
    if !e.value.Str? then Outcome(Some(e), WRONG_TYPE)
    else
      match ParseI64(e.value.bytes)
      case None => Outcome(Some(e), NOT_INT)
      case Some(n) =>
        if !IsI64(n + delta) then Outcome(Some(e), OVERFLOW)
        else Outcome(Some(e.(value := Str(DecInt(n + delta)))), Integer(n + delta))
  }

  /** The entry is created before the size is checked. */
  function AppendTo(cur: Option<Entry>, suffix: Bytes): Outcome {
    var e := if cur.Some? then cur.value else Entry(Str(""), None);
    if !e.value.Str? then Outcome(Some(e), WRONG_TYPE)
    else if !BulkResponseFits(|e.value.bytes| + |suffix|) then Outcome(Some(e), TOO_LARGE)
    else Outcome(Some(e.(value := Str(e.value.bytes + suffix))), Integer(|e.value.bytes| + |suffix|))
  }

  // Deadlines.

  function ExpireTo(cur: Option<Entry>, deadline: Millis, now: Millis): Outcome {
    if cur.None? then Outcome(None, Integer(0))
    else if deadline <= now then Outcome(None, Integer(1))
    else Outcome(Some(cur.value.(expiresAt := Some(deadline))), Integer(1))
  }

  function TtlReply(cur: Option<Entry>, ms: bool, now: Millis): Frame {
    if cur.None? then Integer(-2)
    else
      match cur.value.expiresAt
      case None => Integer(-1)
      case Some(t) =>
        if t <= now then Integer(-2)
        else Integer(Min(if ms then t - now else (t - now) / 1000, I64_MAX))
  }

  // Lists.

  function PushTo(cur: Option<Entry>, values: seq<Bytes>, left: bool): Outcome {
    var e := if cur.Some? then cur.value else Entry(List([]), None);
    if !e.value.List? then Outcome(Some(e), WRONG_TYPE)
    else
      var items := if left then Reverse(values) + e.value.items else e.value.items + values;
      Outcome(Some(e.(value := List(items))), Integer(|items|))
  }

  /** The element `j` places from the chosen end. */
  function FromEnd(items: seq<Bytes>, j: nat, left: bool): Bytes
    requires j < |items|
  {
    if left then items[j] else items[|items| - 1 - j]
  }

  /** The first `n` elements from one end, in the order they are popped. */
  function Popped(items: seq<Bytes>, n: nat, left: bool): (r: seq<Bytes>)
    requires n <= |items|
    ensures |r| == n
    ensures forall j: nat :: j < n ==> r[j] == FromEnd(items, j, left)
  {
    if left then items[..n] else Reverse(items[|items| - n..])
  }

  function Remaining(items: seq<Bytes>, n: nat, left: bool): seq<Bytes>
    requires n <= |items|
  {
    if left then items[n..] else items[..|items| - n]
  }

  function PopFrom(cur: Option<Entry>, count: Option<nat>, left: bool): Outcome {
    if cur.None? then Outcome(None, if count.None? then Null else NullArray)
    else if !cur.value.value.List? then Outcome(cur, WRONG_TYPE)
    else
      var items := cur.value.value.items;
      var n := if count.None? then Min(1, |items|) else Min(count.value, |items|);
      if n == 0 then Outcome(cur, if count.None? then Null else Array([]))
      else
        var reply := BulkArray(Popped(items, n, left));
        if count.Some? && |Encode(reply)| > MAX_RESPONSE_FRAME_BYTES then Outcome(cur, TOO_LARGE)
        else
          var rest := Remaining(items, n, left);
          Outcome(if rest == [] then None else Some(cur.value.(value := List(rest))),
                  if count.None? then Bulk(Popped(items, n, left)[0]) else reply)
  }

  /** The elements LRANGE selects; negative indexes count from the end. */
  function Slice(items: seq<Bytes>, start: int, stop: int): seq<Bytes> {
    var len := |items|;
    var first := if start < 0 then len + start else start;
    var last := if stop < 0 then len + stop else stop;
    if first >= len || last < 0 then []
    else
      var from := if first < 0 then 0 else first;
      var to := Min(last, len - 1);
      if from > to then [] else items[from..to + 1]
  }

  function RangeReply(cur: Option<Entry>, start: int, stop: int): Frame {
    if cur.None? then Array([])
    else if !cur.value.value.List? then WRONG_TYPE
    else Bounded(BulkArray(Slice(cur.value.value.items, start, stop)))
  }

  function LenReply(cur: Option<Entry>): Frame {
    if cur.None? then Integer(0) else if cur.value.value.List? then Integer(|cur.value.value.items|) else WRONG_TYPE
  }

  function ResolveIndex(idx: int, len: int): (r: Option<nat>)
    ensures r.Some? ==> r.value < len
  {
    if 0 <= idx < len then Some(idx)
    else if idx < 0 && len + idx >= 0 then Some(len + idx)
    else None
  }

  function IndexReply(cur: Option<Entry>, idx: int): Frame {
    if cur.None? then Null
    else if !cur.value.value.List? then WRONG_TYPE
    else
      var at := ResolveIndex(idx, |cur.value.value.items|);
      if at.Some? then Bulk(cur.value.value.items[at.value]) else Null
  }

  // Hashes.

  function WithFields(fields: map<Bytes, Bytes>, pairs: seq<(Bytes, Bytes)>): map<Bytes, Bytes>
    decreases |pairs|
  {
    if pairs == [] then fields else WithFields(fields[pairs[0].0 := pairs[0].1], pairs[1..])
  }

  function AddedFields(fields: map<Bytes, Bytes>, pairs: seq<(Bytes, Bytes)>): nat
    decreases |pairs|
  {
    if pairs == [] then 0
    else (if pairs[0].0 in fields then 0 else 1) + AddedFields(fields[pairs[0].0 := pairs[0].1], pairs[1..])
  }

  function SetFields(cur: Option<Entry>, pairs: seq<(Bytes, Bytes)>): Outcome {
    var e := if cur.Some? then cur.value else Entry(Hash(map[]), None);
    if !e.value.Hash? then Outcome(Some(e), WRONG_TYPE)
    else Outcome(Some(e.(value := Hash(WithFields(e.value.fields, pairs)))), Integer(AddedFields(e.value.fields, pairs)))
  }

  function RemovedFields(fields: map<Bytes, Bytes>, names: seq<Bytes>): nat
    decreases |names|
  {
    if names == [] then 0
    else (if names[0] in fields then 1 else 0) + RemovedFields(fields - {names[0]}, names[1..])
  }

  function DeleteFields(cur: Option<Entry>, names: seq<Bytes>): Outcome {
    if cur.None? then Outcome(None, Integer(0))
    else if !cur.value.value.Hash? then Outcome(cur, WRONG_TYPE)
    else
      var fields := cur.value.value.fields;
      var rest := fields - (set n | n in names);
      Outcome(if rest == map[] then None else Some(cur.value.(value := Hash(rest))), Integer(RemovedFields(fields, names)))
  }

  function AddToField(cur: Option<Entry>, field: Bytes, delta: int): Outcome {
    var e := if cur.Some? then cur.value else Entry(Hash(map[]), None);
    if !e.value.Hash? then Outcome(Some(e), WRONG_TYPE)
    else
      var text := if field in e.value.fields then e.value.fields[field] else "0";
      match ParseI64(text)
      case None => Outcome(Some(e.(value := Hash(e.value.fields[field := text]))), HASH_NOT_INT)
      case Some(n) =>
        if !IsI64(n + delta) then Outcome(Some(e.(value := Hash(e.value.fields[field := text]))), OVERFLOW)
        else Outcome(Some(e.(value := Hash(e.value.fields[field := DecInt(n + delta)]))), Integer(n + delta))
  }

  function FieldReply(cur: Option<Entry>, field: Bytes): Frame {
    if cur.None? then Null
    else if !cur.value.value.Hash? then WRONG_TYPE
    else if field in cur.value.value.fields then Bulk(cur.value.value.fields[field])
    else Null
  }

  function FieldExistsReply(cur: Option<Entry>, field: Bytes): Frame {
    if cur.None? then Integer(0)
    else if !cur.value.value.Hash? then WRONG_TYPE
    else Integer(if field in cur.value.value.fields then 1 else 0)
  }

  function FieldCountReply(cur: Option<Entry>): Frame {
    if cur.None? then Integer(0) else if cur.value.value.Hash? then Integer(|cur.value.value.fields|) else WRONG_TYPE
  }

  /** `order` lists every key of the map once. */
  predicate Enumerates<V>(order: seq<Bytes>, m: map<Bytes, V>) {
    && (forall i :: 0 <= i < |order| ==> order[i] in m)
    && (forall k :: k in m ==> k in order)
    && (forall i, j :: 0 <= i < j < |order| ==> order[i] != order[j])
  }

  /** One fixed enumeration of a map's keys; the program's hash order is any enumeration. */
  ghost function SomeOrder<V>(m: map<Bytes, V>): (order: seq<Bytes>)
    ensures Enumerates(order, m)
    decreases |m|
  {
    if m == map[] then []
    else
      var k :| k in m;
      var rest := SomeOrder(m - {k});
      assert (m - {k}).Keys == m.Keys - {k};
      [k] + rest
  }

  function ValuesIn(fields: map<Bytes, Bytes>, order: seq<Bytes>): seq<Bytes>
    requires forall i :: 0 <= i < |order| ==> order[i] in fields
  {
    seq(|order|, i requires 0 <= i < |order| => fields[order[i]])
  }

  function Interleave(fields: map<Bytes, Bytes>, order: seq<Bytes>): seq<Bytes>
    requires forall i :: 0 <= i < |order| ==> order[i] in fields
  {
    if order == [] then [] else [order[0], fields[order[0]]] + Interleave(fields, order[1..])
  }

  /** The reply of HKEYS, HVALS or HGETALL when the hash is walked in the given order. */
  function Listing(c: Command, fields: map<Bytes, Bytes>, order: seq<Bytes>): Frame
    requires Enumerates(order, fields)
  {
    Bounded(BulkArray(
      if c.HKeys? then order else if c.HVals? then ValuesIn(fields, order) else Interleave(fields, order)))
  }

  ghost function ListingReply(c: Command, cur: Option<Entry>): Frame {
    if cur.None? then Array([])
    else if !cur.value.value.Hash? then WRONG_TYPE
    else Listing(c, cur.value.value.fields, SomeOrder(cur.value.value.fields))
  }

  // ---- several keys ----

  function DelAll(m: Keyspace, keys: seq<Bytes>): Keyspace
    decreases |keys|
  {
    if keys == [] then m else DelAll(m - {keys[0]}, keys[1..])
  }

  function DelCount(m: Keyspace, keys: seq<Bytes>): nat
    decreases |keys|
  {
    if keys == [] then 0 else (if keys[0] in m then 1 else 0) + DelCount(m - {keys[0]}, keys[1..])
  }

  function ExistsCount(m: Keyspace, keys: seq<Bytes>): nat
    decreases |keys|
  {
    if keys == [] then 0 else (if keys[0] in m then 1 else 0) + ExistsCount(m, keys[1..])
  }

  function MGetItem(cur: Option<Entry>): Frame {
    if cur.Some? && cur.value.value.Str? then Bulk(cur.value.value.bytes) else Null
  }

  function MGetItems(m: Keyspace, keys: seq<Bytes>): seq<Frame> {
    seq(|keys|, i requires 0 <= i < |keys| => MGetItem(Lookup(m, keys[i])))
  }

  predicate PairsFit(pairs: seq<(Bytes, Bytes)>) {
    forall i :: 0 <= i < |pairs| ==> BulkResponseFits(|pairs[i].1|)
  }

  function SetAll(m: Keyspace, pairs: seq<(Bytes, Bytes)>): Keyspace
    decreases |pairs|
  {
    if pairs == [] then m else SetAll(m[pairs[0].0 := Entry(Str(pairs[0].1), None)], pairs[1..])
  }

  // ---- a whole command ----

  function Sanitized(name: Bytes): Bytes {
    seq(|name|, i requires 0 <= i < |name| => if name[i] == '\r' || name[i] == '\n' then '?' else name[i])
  }

  /** The reply of commands that touch no key. PUBLISH has no receivers and INFO no text here. */
  function KeylessReply(c: Command): Frame {
    match c
    case Ping(None) => Simple("PONG")
    case Ping(Some(message)) => Bulk(message)
    case Echo(message) => Bulk(message)
    case Publish(_, _) => Integer(0)
    case Info(_) => Bulk([])
    case BgRewriteAof => NO_AOF
    case Unknown(name) => Error("ERR unknown command '" + Sanitized(name) + "'")
    case _ => NOT_HERE
  }

  datatype Executed = Executed(db: Keyspace, reply: Frame)

  /** A command on a keyspace without expired keys. */
  ghost function Exec(c: Command, m: Keyspace, now: Millis): Executed {
    if Keyed(c) then
      var o := KeyExec(c, Lookup(m, c.key), now);
      Executed(Put(m, c.key, o.entry), o.reply)
    else
      match c
      case Del(keys) => Executed(DelAll(m, keys), Integer(DelCount(m, keys)))
      case Exists(keys) => Executed(m, Integer(ExistsCount(m, keys)))
      case MGet(keys) => Executed(m, Bounded(Array(MGetItems(m, keys))))
      case MSet(pairs) => if PairsFit(pairs) then Executed(SetAll(m, pairs), OK) else Executed(m, TOO_LARGE)
      case _ => Executed(m, KeylessReply(c))
  }

  /** A command on any keyspace: expired keys are dropped first. */
  ghost function Step(m: Keyspace, c: Command, now: Millis): Executed {
    Exec(c, Live(m, now), now)
  }

  // ---- command after command ----

  type Run = seq<(Command, Millis)>

  ghost function RunDb(run: Run, m: Keyspace): Keyspace
    decreases |run|
  {
    if run == [] then m else RunDb(run[1..], Step(m, run[0].0, run[0].1).db)
  }

  ghost function RunReplies(run: Run, m: Keyspace): (replies: seq<Frame>)
    ensures |replies| == |run|
    decreases |run|
  {
    if run == [] then []
    else
      var first := Step(m, run[0].0, run[0].1);
      [first.reply] + RunReplies(run[1..], first.db)
  }
}
