/** One shard of the database, updated in place (`src/db/mod.rs`, `src/cmd/string.rs`,
    `src/cmd/list.rs`, `src/cmd/hash.rs`). Each command method is the program's own steps on the two
    maps; its contract is the effect on a single key of the plain map. */
module Shards {
  import opened Base
  import opened Limits
  import opened Frames
  import opened Commands
  import opened Semantics
  import opened TtlIndex
  import Parser

  /** Nothing but `key` changed. */
  ghost predicate SameExcept(before: Keyspace, after: Keyspace, key: Bytes) {
    forall k :: k != key ==> Lookup(after, k) == Lookup(before, k)
  }

  /** The live entry of a key. */
  function LiveAt(entries: Keyspace, key: Bytes, now: Millis): Option<Entry> {
    Fresh(Lookup(entries, key), now)
  }

  /** The step left exactly `o.entry` alive at `key`, touched nothing else, and replied `o.reply`. */
  ghost predicate Updated(before: Keyspace, after: Keyspace, key: Bytes, now: Millis, o: Outcome, r: Frame) {
    SameExcept(before, after, key) && LiveAt(after, key, now) == o.entry && r == o.reply
  }

  /** What a command about one key does to the entries and replies; only hash listings leave their
      order open. */
  ghost predicate Updates(before: Keyspace, after: Keyspace, c: Command, now: Millis, r: Frame)
    requires Keyed(c)
  {
    var cur := LiveAt(before, c.key, now);
    var o := KeyExec(c, cur, now);
    && SameExcept(before, after, c.key)
    && LiveAt(after, c.key, now) == o.entry
    && (!c.IsWrite() ==> after == before)
    && if c.HKeys? || c.HVals? || c.HGetAll? then ListingMatches(c, cur, r) else r == o.reply
  }

  lemma UnchangedIsUpdated(entries: Keyspace, key: Bytes, now: Millis, r: Frame)
    ensures Updated(entries, entries, key, now, Outcome(LiveAt(entries, key, now), r), r)
  {
  }

  class Shard {
    var entries: Keyspace
    var expirations: Index

    ghost predicate Valid()
      reads this
    {
      Indexes(expirations, entries)
    }

    constructor ()
      ensures Valid() && entries == map[]
    {
      entries := map[];
      expirations := map[];
    }

    // ---- the index ----

    method UnindexExpiration(t: Millis, key: Bytes)
      modifies this`expirations
      ensures expirations == Unindexed(old(expirations), t, key)
    {
      if t in expirations {
        var keys: seq<Bytes>, i := expirations[t], |expirations[t]|;
        ghost var kept: seq<Bytes> := [];
        keys := [];
        for j := 0 to i
          invariant expirations == old(expirations) && i == |expirations[t]|
          invariant keys == Without(expirations[t][..j], key)
        {
          assert expirations[t][..j + 1][..j] == expirations[t][..j];
          if expirations[t][j] != key {
            keys := keys + [expirations[t][j]];
          }
        }
        assert expirations[t][..i] == expirations[t];
        expirations := if keys == [] then expirations - {t} else expirations[t := keys];
      }
    }

    method IndexExpiration(t: Millis, key: Bytes)
      modifies this`expirations
      ensures expirations == Pushed(old(expirations), t, key)
    {
      expirations := expirations[t := (if t in expirations then expirations[t] else []) + [key]];
    }

    method RemoveEntry(key: Bytes) returns (removed: Option<Entry>)
      requires Valid()
      modifies this
      ensures Valid() && entries == old(entries) - {key} && removed == Lookup(old(entries), key)
    {
      removed := Lookup(entries, key);
      if removed.None? {
        assert entries - {key} == entries;
        return;
      }
      ReindexedIndexes(expirations, entries, key, None);
      entries := entries - {key};
      if removed.value.expiresAt.Some? {
        UnindexExpiration(removed.value.expiresAt.value, key);
      }
    }

    method ExpireIfStale(key: Bytes, now: Millis) returns (stale: bool)
      requires Valid()
      modifies this
      ensures Valid() && stale == (key in old(entries) && Expired(old(entries)[key], now))
      ensures entries == if stale then old(entries) - {key} else old(entries)
    {
      if key !in entries || entries[key].expiresAt.None? {
        return false;
      }
      if now < entries[key].expiresAt.value {
        return false;
      }
      var _ := RemoveEntry(key);
      return true;
    }

    /** Writes a whole entry: the old row goes, the new one is added. */
    method InsertEntry(key: Bytes, entry: Entry)
      requires Valid()
      modifies this
      ensures Valid() && entries == old(entries)[key := entry]
    {
      ReindexedIndexes(expirations, entries, key, Some(entry));
      if key in entries && entries[key].expiresAt.Some? {
        UnindexExpiration(entries[key].expiresAt.value, key);
      }
      entries := entries[key := entry];
      if entry.expiresAt.Some? {
        IndexExpiration(entry.expiresAt.value, key);
      }
    }

    /** Replaces a value and keeps its deadline. */
    method SetValue(key: Bytes, value: Value)
      requires Valid() && key in entries
      modifies this`entries
      ensures Valid() && entries == old(entries)[key := old(entries)[key].(value := value)]
    {
      entries := entries[key := entries[key].(value := value)];
    }

    /** `entry(key).or_insert(...)` after a stale entry was dropped. */
    method EntryOr(key: Bytes, initial: Value, now: Millis)
      requires Valid()
      modifies this
      ensures Valid() && key in entries && SameExcept(old(entries), entries, key) && !Expired(entries[key], now)
      ensures Some(entries[key]) == var cur := LiveAt(old(entries), key, now);
        if cur.Some? then cur else Some(Entry(initial, None))
    {
      var _ := ExpireIfStale(key, now);
      if key !in entries {
        entries := entries[key := Entry(initial, None)];
      }
    }

    // ---- strings ----

    method Get(key: Bytes, now: Millis) returns (r: Frame)
      ensures r == GetReply(LiveAt(entries, key, now))
    {
      if key !in entries || Expired(entries[key], now) {
        return Null;
      }
      match entries[key].value
      case Str(b) => return Bulk(b);
      case _ => return WRONG_TYPE;
    }

    method SetAt(key: Bytes, value: Bytes, expiresAt: Option<Millis>, now: Millis) returns (r: Frame)
      requires Valid()
      modifies this
      ensures Valid()
      ensures Updated(old(entries), entries, key, now,
                      KeyExec(Set(key, value, expiresAt), LiveAt(old(entries), key, now), now), r)
    {
      hide BulkResponseFits, Indexes;
      if !BulkResponseFits(|value|) {
        return TOO_LARGE;
      }
      InsertEntry(key, Entry(Str(value), expiresAt));
      return OK;
    }

    method Incr(key: Bytes, delta: int, now: Millis) returns (r: Frame)
      requires Valid()
      modifies this
      ensures Valid() && Updated(old(entries), entries, key, now, AddTo(LiveAt(old(entries), key, now), delta), r)
    {
      hide ParseI64, DecInt, Indexes;
      EntryOr(key, Str("0"), now);
      if !entries[key].value.Str? {
        return WRONG_TYPE;
      }
      var current := ParseI64(entries[key].value.bytes);
      if current.None? {
        return NOT_INT;
      }
      var sum := current.value + delta;
      if !IsI64(sum) {
        return OVERFLOW;
      }
      SetValue(key, Str(DecInt(sum)));
      return Integer(sum);
    }

    method Append(key: Bytes, suffix: Bytes, now: Millis) returns (r: Frame)
      requires Valid()
      modifies this
      ensures Valid() && Updated(old(entries), entries, key, now, AppendTo(LiveAt(old(entries), key, now), suffix), r)
    {
      hide BulkResponseFits, Indexes;
      EntryOr(key, Str(""), now);
      if !entries[key].value.Str? {
        return WRONG_TYPE;
      }
      var b := entries[key].value.bytes;
      if !BulkResponseFits(|b| + |suffix|) {
        return TOO_LARGE;
      }
      var combined := b;
      combined := combined + suffix;
      SetValue(key, Str(combined));
      return Integer(|combined|);
    }

    method Strlen(key: Bytes, now: Millis) returns (r: Frame)
      ensures r == StrlenReply(LiveAt(entries, key, now))
    {
      if key !in entries || Expired(entries[key], now) {
        return Integer(0);
      }
      match entries[key].value
      case Str(b) => return Integer(|b|);
      case _ => return WRONG_TYPE;
    }

    // ---- deadlines ----

    method ExpireAt(key: Bytes, deadline: Millis, now: Millis) returns (r: Frame)
      requires Valid()
      modifies this
      ensures Valid() && Updated(old(entries), entries, key, now, ExpireTo(LiveAt(old(entries), key, now), deadline, now), r)
    {
      hide Indexes;
      var stale := ExpireIfStale(key, now);
      if stale {
        return Integer(0);
      }
      if key !in entries {
        return Integer(0);
      }
      if deadline <= now {
        var _ := RemoveEntry(key);
        return Integer(1);
      }
      InsertEntry(key, entries[key].(expiresAt := Some(deadline)));
      return Integer(1);
    }

    method Ttl(key: Bytes, inMs: bool, now: Millis) returns (r: Frame)
      ensures r == TtlReply(LiveAt(entries, key, now), inMs, now)
    {
      if key !in entries {
        return Integer(-2);
      }
      match entries[key].expiresAt
      case None => return Integer(-1);
      case Some(t) =>
        if t <= now {
          return Integer(-2);
        }
        return Integer(Min(if inMs then t - now else (t - now) / 1000, I64_MAX));
    }

    method Persist(key: Bytes, now: Millis) returns (r: Frame)
      requires Valid()
      modifies this
      ensures Valid()
      ensures Updated(old(entries), entries, key, now,
                      KeyExec(Commands.Persist(key), LiveAt(old(entries), key, now), now), r)
    {
      hide Indexes;
      var stale := ExpireIfStale(key, now);
      if stale {
        return Integer(0);
      }
      if key !in entries || entries[key].expiresAt.None? {
        return Integer(0);
      }
      InsertEntry(key, entries[key].(expiresAt := None));
      return Integer(1);
    }

    // ---- lists ----

    method Push(key: Bytes, values: seq<Bytes>, left: bool, now: Millis) returns (r: Frame)
      requires Valid()
      modifies this
      ensures Valid() && Updated(old(entries), entries, key, now, PushTo(LiveAt(old(entries), key, now), values, left), r)
    {
      hide Indexes;
      EntryOr(key, List([]), now);
      if !entries[key].value.List? {
        return WRONG_TYPE;
      }
      var list := PushLoop(entries[key].value.items, values, left);
      SetValue(key, List(list));
      return Integer(|list|);
    }

    method Pop(key: Bytes, count: Option<nat>, left: bool, now: Millis) returns (r: Frame)
      requires Valid()
      modifies this
      ensures Valid() && Updated(old(entries), entries, key, now, PopFrom(LiveAt(old(entries), key, now), count, left), r)
    {
      hide Indexes, Encode, Popped, Remaining;
      var _ := ExpireIfStale(key, now);
      if key !in entries {
        return if count.None? then Null else NullArray;
      }
      if !entries[key].value.List? {
        return WRONG_TYPE;
      }
      var list := entries[key].value.items;
      var n := Min(if count.Some? then count.value else 1, |list|);
      if n == 0 {
        return if count.None? then Null else Array([]);
      }
      if count.Some? {
        var tooLarge := PopArrayResponseTooLarge(list, n, left);
        if tooLarge {
          return TOO_LARGE;
        }
      }
      var popped, rest := PopLoop(list, n, left);
      if rest == [] {
        var _ := RemoveEntry(key);
      } else {
        SetValue(key, List(rest));
      }
      return if count.None? then Bulk(popped[0]) else BulkArray(popped);
    }

    method LRange(key: Bytes, start: int, stop: int, now: Millis) returns (r: Frame)
      ensures r == RangeReply(LiveAt(entries, key, now), start, stop)
    {
      hide Encode;
      if key !in entries || Expired(entries[key], now) {
        return Array([]);
      }
      if !entries[key].value.List? {
        return WRONG_TYPE;
      }
      var list := entries[key].value.items;
      EmptyArrayFits();
      var len := |list|;
      if len == 0 {
        return Array([]);
      }
      var startR := if start < 0 then len + start else start;
      var stopR := if stop < 0 then len + stop else stop;
      if startR >= len || stopR < 0 {
        return Array([]);
      }
      var startIdx := if startR < 0 then 0 else startR;
      var stopIdx := Min(stopR, len - 1);
      if startIdx > stopIdx {
        return Array([]);
      }
      r := BoundedBulks(list[startIdx..stopIdx + 1]);
    }

    method LLen(key: Bytes, now: Millis) returns (r: Frame)
      ensures r == LenReply(LiveAt(entries, key, now))
    {
      if key !in entries || Expired(entries[key], now) {
        return Integer(0);
      }
      match entries[key].value
      case List(list) => return Integer(|list|);
      case _ => return WRONG_TYPE;
    }

    method LIndex(key: Bytes, idx: int, now: Millis) returns (r: Frame)
      ensures r == IndexReply(LiveAt(entries, key, now), idx)
    {
      if key !in entries || Expired(entries[key], now) {
        return Null;
      }
      if !entries[key].value.List? {
        return WRONG_TYPE;
      }
      var list := entries[key].value.items;
      var at := ResolveIndex(idx, |list|);
      return if at.Some? then Bulk(list[at.value]) else Null;
    }

    // ---- hashes ----

    method HSet(key: Bytes, pairs: seq<(Bytes, Bytes)>, now: Millis) returns (r: Frame)
      requires Valid()
      modifies this
      ensures Valid() && Updated(old(entries), entries, key, now, SetFields(LiveAt(old(entries), key, now), pairs), r)
    {
      hide Indexes;
      EntryOr(key, Hash(map[]), now);
      if !entries[key].value.Hash? {
        return WRONG_TYPE;
      }
      ghost var fields := entries[key].value.fields;
      var table, added := entries[key].value.fields, 0;
      for i := 0 to |pairs|
        invariant WithFields(table, pairs[i..]) == WithFields(fields, pairs)
        invariant added + AddedFields(table, pairs[i..]) == AddedFields(fields, pairs)
      {
        assert pairs[i..][0] == pairs[i] && pairs[i..][1..] == pairs[i + 1..];
        if pairs[i].0 !in table {
          added := added + 1;
        }
        table := table[pairs[i].0 := pairs[i].1];
      }
      SetValue(key, Hash(table));
      return Integer(added);
    }

    method HGet(key: Bytes, field: Bytes, now: Millis) returns (r: Frame)
      ensures r == FieldReply(LiveAt(entries, key, now), field)
    {
      if key !in entries || Expired(entries[key], now) {
        return Null;
      }
      if !entries[key].value.Hash? {
        return WRONG_TYPE;
      }
      var table := entries[key].value.fields;
      return if field in table then Bulk(table[field]) else Null;
    }

    method HDel(key: Bytes, names: seq<Bytes>, now: Millis) returns (r: Frame)
      requires Valid()
      modifies this
      ensures Valid() && Updated(old(entries), entries, key, now, DeleteFields(LiveAt(old(entries), key, now), names), r)
    {
      hide Indexes;
      var _ := ExpireIfStale(key, now);
      if key !in entries {
        return Integer(0);
      }
      if !entries[key].value.Hash? {
        return WRONG_TYPE;
      }
      ghost var fields := entries[key].value.fields;
      var table, removed := entries[key].value.fields, 0;
      for i := 0 to |names|
        invariant table == fields - (set n | n in names[..i])
        invariant removed + RemovedFields(table, names[i..]) == RemovedFields(fields, names)
      {
        assert names[i..][0] == names[i] && names[i..][1..] == names[i + 1..];
        assert names[..i + 1] == names[..i] + [names[i]];
        if names[i] in table {
          removed := removed + 1;
        }
        table := table - {names[i]};
      }
      assert names[..|names|] == names;
      if table == map[] {
        var _ := RemoveEntry(key);
      } else {
        SetValue(key, Hash(table));
      }
      return Integer(removed);
    }

    /** HKEYS, HVALS and HGETALL, walking the hash in some order. */
    method HashListing(c: Command, now: Millis) returns (r: Frame)
      requires c.HKeys? || c.HVals? || c.HGetAll?
      ensures ListingMatches(c, LiveAt(entries, c.key, now), r)
    {
      if c.key !in entries || Expired(entries[c.key], now) {
        return Array([]);
      }
      if !entries[c.key].value.Hash? {
        return WRONG_TYPE;
      }
      var table := entries[c.key].value.fields;
      var order := HashOrder(table);
      r := BoundedBulks(if c.HKeys? then order else if c.HVals? then ValuesIn(table, order) else Interleave(table, order));
      assert r == Listing(c, table, order);
    }

    method HExists(key: Bytes, field: Bytes, now: Millis) returns (r: Frame)
      ensures r == FieldExistsReply(LiveAt(entries, key, now), field)
    {
      if key !in entries || Expired(entries[key], now) {
        return Integer(0);
      }
      match entries[key].value
      case Hash(table) => return Integer(if field in table then 1 else 0);
      case _ => return WRONG_TYPE;
    }

    method HLen(key: Bytes, now: Millis) returns (r: Frame)
      ensures r == FieldCountReply(LiveAt(entries, key, now))
    {
      if key !in entries || Expired(entries[key], now) {
        return Integer(0);
      }
      match entries[key].value
      case Hash(table) => return Integer(|table|);
      case _ => return WRONG_TYPE;
    }

    method HIncrBy(key: Bytes, field: Bytes, delta: int, now: Millis) returns (r: Frame)
      requires Valid()
      modifies this
      ensures Valid() && Updated(old(entries), entries, key, now, AddToField(LiveAt(old(entries), key, now), field, delta), r)
    {
      hide ParseI64, DecInt, Indexes;
      EntryOr(key, Hash(map[]), now);
      if !entries[key].value.Hash? {
        return WRONG_TYPE;
      }
      var table := entries[key].value.fields;
      ghost var fields := table;
      if field !in table {
        table := table[field := "0"];
      }
      assert table == fields[field := table[field]];
      SetValue(key, Hash(table));
      var current := ParseI64(table[field]);
      if current.None? {
        return HASH_NOT_INT;
      }
      var sum := current.value + delta;
      if !IsI64(sum) {
        return OVERFLOW;
      }
      assert table[field := DecInt(sum)] == fields[field := DecInt(sum)];
      SetValue(key, Hash(table[field := DecInt(sum)]));
      return Integer(sum);
    }

    // ---- dispatch ----

    /** A command about one key, on the shard that holds it. */
    method ApplyKeyed(c: Command, now: Millis) returns (r: Frame)
      requires Valid() && Keyed(c)
      modifies this
      ensures Valid()
      ensures Updates(old(entries), entries, c, now, r)
    {
      hide AddTo, AppendTo, ExpireTo, PushTo, PopFrom, SetFields, DeleteFields, AddToField, Fresh, Indexes;
      hide GetReply, StrlenReply, TtlReply, RangeReply, LenReply, IndexReply, FieldReply, FieldExistsReply, FieldCountReply;
      if c.IsWrite() {
        r := ApplyWrite(c, now);
      } else {
        r := ApplyRead(c, now);
      }
    }

    method ApplyWrite(c: Command, now: Millis) returns (r: Frame)
      requires Valid() && Keyed(c) && c.IsWrite()
      modifies this
      ensures Valid()
      ensures Updated(old(entries), entries, c.key, now, KeyExec(c, LiveAt(old(entries), c.key, now), now), r)
    {
      hide KeyExec, Fresh, Indexes, Updated;
      if IsCollectionWrite(c) {
        r := ApplyCollectionWrite(c, now);
      } else {
        r := ApplyStringWrite(c, now);
      }
    }

    static predicate IsCollectionWrite(c: Command) {
      c.LPush? || c.RPush? || c.LPop? || c.RPop? || c.HSet? || c.HDel? || c.HIncrBy?
    }

    method ApplyStringWrite(c: Command, now: Millis) returns (r: Frame)
      requires Valid() && Keyed(c) && c.IsWrite() && !IsCollectionWrite(c)
      modifies this
      ensures Valid()
      ensures Updated(old(entries), entries, c.key, now, KeyExec(c, LiveAt(old(entries), c.key, now), now), r)
    {
      hide AddTo, AppendTo, ExpireTo, PushTo, PopFrom, SetFields, DeleteFields, AddToField, Fresh, Indexes, Updated;
      match c
      case Set(key, value, expiresAt) => r := SetAt(key, value, expiresAt, now);
      case Incr(key) => r := Incr(key, 1, now);
      case Decr(key) => r := Incr(key, -1, now);
      case IncrBy(key, n) => r := Incr(key, n, now);
      case DecrBy(key, n) =>
        if IsI64(-n) {
          r := Incr(key, -n, now);
        } else {
          r := OVERFLOW;
          UnchangedIsUpdated(entries, key, now, r);
        }
      case Append(key, value) => r := Append(key, value, now);
      case Expire(key, deadline) => r := ExpireAt(key, deadline, now);
      case PExpire(key, deadline) => r := ExpireAt(key, deadline, now);
      case PExpireAt(key, deadline) => r := ExpireAt(key, deadline, now);
      case Persist(key) => r := Persist(key, now);
    }

    method ApplyCollectionWrite(c: Command, now: Millis) returns (r: Frame)
      requires Valid() && IsCollectionWrite(c)
      modifies this
      ensures Valid()
      ensures Updated(old(entries), entries, c.key, now, KeyExec(c, LiveAt(old(entries), c.key, now), now), r)
    {
      hide AddTo, AppendTo, ExpireTo, PushTo, PopFrom, SetFields, DeleteFields, AddToField, Fresh, Indexes, Updated;
      match c
      case LPush(key, values) => r := Push(key, values, true, now);
      case RPush(key, values) => r := Push(key, values, false, now);
      case LPop(key, count) => r := Pop(key, count, true, now);
      case RPop(key, count) => r := Pop(key, count, false, now);
      case HSet(key, fields) => r := HSet(key, fields, now);
      case HDel(key, names) => r := HDel(key, names, now);
      case HIncrBy(key, field, n) => r := HIncrBy(key, field, n, now);
    }

    method ApplyRead(c: Command, now: Millis) returns (r: Frame)
      requires Keyed(c) && !c.IsWrite()
      ensures if c.HKeys? || c.HVals? || c.HGetAll? then ListingMatches(c, LiveAt(entries, c.key, now), r)
              else r == KeyExec(c, LiveAt(entries, c.key, now), now).reply
    {
      hide Fresh, KeyExec, ListingMatches;
      if c.HKeys? || c.HVals? || c.HGetAll? {
        r := HashListing(c, now);
      } else {
        r := ApplyPlainRead(c, now);
      }
    }

    method ApplyPlainRead(c: Command, now: Millis) returns (r: Frame)
      requires Keyed(c) && !c.IsWrite() && !c.HKeys? && !c.HVals? && !c.HGetAll?
      ensures r == KeyExec(c, LiveAt(entries, c.key, now), now).reply
    {
      hide Fresh, KeyExec, GetReply, StrlenReply, TtlReply;
      StringReplies(c, LiveAt(entries, c.key, now), now);
      match c
      case Get(key) => r := Get(key, now);
      case Strlen(key) => r := Strlen(key, now);
      case Ttl(key) => r := Ttl(key, false, now);
      case PTtl(key) => r := Ttl(key, true, now);
      case _ => r := ApplyCollectionRead(c, now);
    }

    static predicate IsCollectionRead(c: Command) {
      c.LRange? || c.LLen? || c.LIndex? || c.HGet? || c.HExists? || c.HLen?
    }

    method ApplyCollectionRead(c: Command, now: Millis) returns (r: Frame)
      requires IsCollectionRead(c)
      ensures r == KeyExec(c, LiveAt(entries, c.key, now), now).reply
    {
      hide Fresh, KeyExec, RangeReply, LenReply, IndexReply, FieldReply, FieldExistsReply, FieldCountReply;
      CollectionReplies(c, LiveAt(entries, c.key, now), now);
      match c
      case LRange(key, start, stop) => r := LRange(key, start, stop, now);
      case LLen(key) => r := LLen(key, now);
      case LIndex(key, idx) => r := LIndex(key, idx, now);
      case HGet(key, field) => r := HGet(key, field, now);
      case HExists(key, field) => r := HExists(key, field, now);
      case HLen(key) => r := HLen(key, now);
    }

    // ---- the sweeper ----

    /** `sweep_once` on one shard: due rows are dropped, then every entry still due. */
    method Sweep(now: Millis)
      requires Valid()
      modifies this
      ensures Valid() && entries == Live(old(entries), now)
    {
      hide Indexes;
      var due := DueKeys(expirations, now);
      DueCovers(expirations, entries, now);
      expirations := Later(expirations, now);
      var left := due;
      while left != {}
        invariant left <= due
        invariant entries == map k | k in old(entries) && (k in left || !Expired(old(entries)[k], now)) :: old(entries)[k]
        invariant expirations == Later(old(expirations), now)
        decreases left
      {
        var k :| k in left;
        left := left - {k};
        if k in entries && Expired(entries[k], now) {
          entries := entries - {k};
        }
      }
      assert entries == Live(old(entries), now);
      SweptIndexes(old(expirations), old(entries), now);
    }
  }

  lemma StringReplies(c: Command, cur: Option<Entry>, now: Millis)
    ensures c.Get? ==> KeyExec(c, cur, now).reply == GetReply(cur)
    ensures c.Strlen? ==> KeyExec(c, cur, now).reply == StrlenReply(cur)
    ensures c.Ttl? ==> KeyExec(c, cur, now).reply == TtlReply(cur, false, now)
    ensures c.PTtl? ==> KeyExec(c, cur, now).reply == TtlReply(cur, true, now)
  {
    hide GetReply, StrlenReply, TtlReply;
  }

  lemma CollectionReplies(c: Command, cur: Option<Entry>, now: Millis)
    ensures c.LRange? ==> KeyExec(c, cur, now).reply == RangeReply(cur, c.start, c.stop)
    ensures c.LLen? ==> KeyExec(c, cur, now).reply == LenReply(cur)
    ensures c.LIndex? ==> KeyExec(c, cur, now).reply == IndexReply(cur, c.idx)
    ensures c.HGet? ==> KeyExec(c, cur, now).reply == FieldReply(cur, c.field)
    ensures c.HExists? ==> KeyExec(c, cur, now).reply == FieldExistsReply(cur, c.field)
    ensures c.HLen? ==> KeyExec(c, cur, now).reply == FieldCountReply(cur)
  {
    hide RangeReply, LenReply, IndexReply, FieldReply, FieldExistsReply, FieldCountReply;
  }

  /** The keys listed at or before `now`. */
  function DueKeys(index: Index, now: Millis): set<Bytes> {
    set t, k | t in index && t <= now && k in index[t] :: k
  }

  /** The rows after `now`. */
  function Later(index: Index, now: Millis): Index {
    map t | t in index && t > now :: index[t]
  }

  lemma DueCovers(index: Index, entries: Keyspace, now: Millis)
    requires Indexes(index, entries)
    ensures forall k :: k in entries && Expired(entries[k], now) ==> k in DueKeys(index, now)
  {
    forall k | k in entries && Expired(entries[k], now)
      ensures k in DueKeys(index, now)
    {
      assert Listed(index, entries[k].expiresAt.value, k);
    }
  }

  lemma SweptIndexes(index: Index, entries: Keyspace, now: Millis)
    requires Indexes(index, entries)
    ensures Indexes(Later(index, now), Live(entries, now))
  {
    var kept := Later(index, now);
    forall k | k in Live(entries, now) && entries[k].expiresAt.Some?
      ensures Listed(kept, entries[k].expiresAt.value, k)
    {
      assert Listed(index, entries[k].expiresAt.value, k);
    }
  }

  lemma {:induction false} ReverseSnoc(s: seq<Bytes>, x: Bytes)
    ensures Reverse(s + [x]) == [x] + Reverse(s)
  {
  }

  lemma EmptyArrayFits()
    ensures Bounded(BulkArray([])) == Array([])
  {
    DecLenUsize(0);
    assert EncodeAll([]) == [];
    assert BulkArray([]) == Array([]);
  }

  /** The reply is a listing of the hash in some order. */
  ghost predicate ListingMatches(c: Command, cur: Option<Entry>, r: Frame) {
    if cur.None? then r == Array([])
    else if !cur.value.value.Hash? then r == WRONG_TYPE
    else exists order :: Enumerates(order, cur.value.value.fields) && r == Listing(c, cur.value.value.fields, order)
  }

  /** The iteration order of a hash map: each key once, in no particular order. */
  method HashOrder<V>(table: map<Bytes, V>) returns (order: seq<Bytes>)
    ensures Enumerates(order, table)
  {
    var left := table.Keys;
    order := [];
    while left != {}
      invariant left <= table.Keys
      invariant forall i :: 0 <= i < |order| ==> order[i] in table && order[i] !in left
      invariant forall k :: k in table ==> k in left || k in order
      invariant forall i, j :: 0 <= i < j < |order| ==> order[i] != order[j]
      decreases left
    {
      var k :| k in left;
      left := left - {k};
      order := order + [k];
    }
  }

  // ---- bounded replies ----

  /** What the items of a bulk array add to its encoding. */
  function BulksLen(items: seq<Bytes>): nat {
    if items == [] then 0 else BulksLen(items[..|items| - 1]) + BulkLen(|items[|items| - 1]|)
  }

  lemma {:induction false} BulksLenIsEncoded(items: seq<Bytes>)
    ensures |EncodeAll(Parser.Bulks(items))| == BulksLen(items)
  {
    if items != [] {
      var init := items[..|items| - 1];
      BulksLenIsEncoded(init);
      assert Parser.Bulks(items) == Parser.Bulks(init) + [Bulk(items[|items| - 1])];
      EncodeAllSnoc(Parser.Bulks(init), Bulk(items[|items| - 1]));
    }
  }

  lemma {:induction false} BulksLenPrefix(items: seq<Bytes>, i: nat)
    requires i <= |items|
    ensures BulksLen(items[..i]) <= BulksLen(items)
    decreases |items|
  {
    if i < |items| {
      assert items[..|items| - 1][..i] == items[..i];
      BulksLenPrefix(items[..|items| - 1], i);
    } else {
      assert items[..i] == items;
    }
  }

  lemma EncodedBulkArrayLen(items: seq<Bytes>)
    ensures |Encode(BulkArray(items))| == HeaderLen(|items|) + BulksLen(items)
  {
    BulksLenIsEncoded(items);
  }

  /** The shared loop of the array replies: the running total refuses as soon as it passes the limit,
      which happens exactly when the whole reply would. */
  method BoundedBulks(items: seq<Bytes>) returns (r: Frame)
    ensures r == Bounded(BulkArray(items))
  {
    hide Encode;
    EncodedBulkArrayLen(items);
    var header := RespArrayHeaderLen(|items|);
    if header.None? {
      return TOO_LARGE;
    }
    var total: nat := header.value;
    var frames: seq<Frame> := [];
    for i := 0 to |items|
      invariant total == HeaderLen(|items|) + BulksLen(items[..i])
      invariant frames == Parser.Bulks(items[..i])
      invariant i > 0 ==> total <= MAX_RESPONSE_FRAME_BYTES
    {
      assert items[..i + 1][..i] == items[..i];
      BulksLenPrefix(items, i + 1);
      var bulkLen := RespBulkLen(|items[i]|);
      if bulkLen.None? {
        return TOO_LARGE;
      }
      var ok, sum := CheckedAddResponseLen(total, bulkLen.value);
      if !ok {
        return TOO_LARGE;
      }
      total := sum;
      frames := frames + [Bulk(items[i])];
    }
    assert items[..|items|] == items;
    if items == [] {
      EmptyArrayFits();
    }
    return Array(frames);
  }

  /** `pop_array_response_too_large`. */
  method PopArrayResponseTooLarge(list: seq<Bytes>, n: nat, left: bool) returns (tooLarge: bool)
    requires 0 < n <= |list|
    ensures tooLarge <==> |Encode(BulkArray(Popped(list, n, left)))| > MAX_RESPONSE_FRAME_BYTES
  {
    hide Encode, Popped, BulkLen, Dec, HeaderLen;
    ghost var items := Popped(list, n, left);
    EncodedBulkArrayLen(items);
    var header := RespArrayHeaderLen(n);
    if header.None? {
      return true;
    }
    var total: nat := header.value;
    for i := 0 to n
      invariant total == HeaderLen(n) + BulksLen(items[..i])
      invariant i > 0 ==> total <= MAX_RESPONSE_FRAME_BYTES
    {
      var value := if left then list[i] else list[|list| - 1 - i];
      assert value == FromEnd(list, i, left) == items[i];
      assert items[..i + 1][..i] == items[..i];
      BulksLenPrefix(items, i + 1);
      var bulkLen := RespBulkLen(|value|);
      if bulkLen.None? {
        return true;
      }
      var ok, sum := CheckedAddResponseLen(total, bulkLen.value);
      if !ok {
        return true;
      }
      total := sum;
    }
    assert items[..n] == items;
    return false;
  }

  /** The push loop: one element at a time at the chosen end. */
  method PushLoop(items: seq<Bytes>, values: seq<Bytes>, left: bool) returns (list: seq<Bytes>)
    ensures list == if left then Reverse(values) + items else items + values
  {
    list := items;
    for i := 0 to |values|
      invariant list == if left then Reverse(values[..i]) + items else items + values[..i]
    {
      assert values[..i + 1] == values[..i] + [values[i]];
      ReverseSnoc(values[..i], values[i]);
      list := if left then [values[i]] + list else list + [values[i]];
    }
    assert values[..|values|] == values;
  }

  /** The pop loop: one element at a time from the chosen end. */
  method PopLoop(list: seq<Bytes>, n: nat, left: bool) returns (popped: seq<Bytes>, rest: seq<Bytes>)
    requires n <= |list|
    ensures popped == Popped(list, n, left) && rest == Remaining(list, n, left)
  {
    hide Popped;
    popped, rest := [], list;
    for i := 0 to n
      invariant rest == if left then list[i..] else list[..|list| - i]
      invariant |popped| == i
      invariant forall j: nat :: j < i ==> popped[j] == FromEnd(list, j, left)
    {
      assert FromEnd(list, i, left) == if left then rest[0] else rest[|rest| - 1];
      if left {
        popped := popped + [rest[0]];
        rest := rest[1..];
      } else {
        popped := popped + [rest[|rest| - 1]];
        rest := rest[..|rest| - 1];
      }
    }
  }
}
