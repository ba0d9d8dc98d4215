/** The sharded database (`src/db/mod.rs`, `src/db/expire.rs`) refines one map with deadlines. */
module Database {
  import opened Base
  import opened Limits
  import opened Frames
  import opened Commands
  import opened Semantics
  import opened Ordering
  import opened TtlIndex
  import opened Shards
  import Laws

  const SHARDS: nat := 16

  /** One command on the stored entries (expired ones may still be there): the live view moves as the
      plain map does, the reply is the plain map's, and only the named keys change. */
  ghost predicate Refines(before: Keyspace, c: Command, now: Millis, after: Keyspace, r: Frame) {
    && Live(after, now) == Step(before, c, now).db
    && Laws.SameOutside(before, after, c.MutatedKeys())
    && ReplyMatches(before, c, now, r)
  }

  predicate IsListing(c: Command) {
    c.HKeys? || c.HVals? || c.HGetAll?
  }

  ghost predicate ReplyMatches(before: Keyspace, c: Command, now: Millis, r: Frame) {
    if IsListing(c) then ListingMatches(c, LiveAt(before, c.key, now), r) else r == Step(before, c, now).reply
  }

  lemma UpdatesRefines(before: Keyspace, after: Keyspace, c: Command, now: Millis, r: Frame)
    requires Keyed(c) && Updates(before, after, c, now, r)
    ensures Refines(before, c, now, after, r)
  {
    hide KeyExec, ListingMatches;
    assert Lookup(Live(before, now), c.key) == LiveAt(before, c.key, now);
    assert Lookup(Live(after, now), c.key) == LiveAt(after, c.key, now);
    var goal := Step(before, c, now).db;
    forall k
      ensures Lookup(Live(after, now), k) == Lookup(goal, k)
    {
      if k != c.key {
        assert Lookup(after, k) == Lookup(before, k);
      }
    }
    Laws.SameLookups(Live(after, now), goal);
    if c.IsWrite() {
      assert c.MutatedKeys() == [c.key];
    }
  }

  // ---- sixteen maps as one ----

  /** The entries of several shards as one map. */
  function Merged(maps: seq<Keyspace>): Keyspace {
    if maps == [] then map[] else Merged(maps[..|maps| - 1]) + maps[|maps| - 1]
  }

  function Home(hash: Bytes -> nat, key: Bytes): (home: nat)
    ensures home < SHARDS
  {
    hash(key) % SHARDS
  }

  /** Every key sits in the shard its hash selects. */
  predicate Placed(maps: seq<Keyspace>, hash: Bytes -> nat) {
    forall i, k :: 0 <= i < |maps| && k in maps[i] ==> Home(hash, k) == i
  }

  lemma {:induction false} MergedAt(maps: seq<Keyspace>, hash: Bytes -> nat, key: Bytes)
    requires Placed(maps, hash)
    ensures Lookup(Merged(maps), key)
         == if Home(hash, key) < |maps| then Lookup(maps[Home(hash, key)], key) else None
  {
    hide Home;
    if maps != [] {
      var init := maps[..|maps| - 1];
      assert forall i :: 0 <= i < |init| ==> init[i] == maps[i];
      MergedAt(init, hash, key);
    }
  }

  /** Changing one shard at one key changes the whole at that key. */
  lemma OneKeyChanged(maps: seq<Keyspace>, hash: Bytes -> nat, key: Bytes, changed: Keyspace)
    requires |maps| == SHARDS && Placed(maps, hash) && SameExcept(maps[Home(hash, key)], changed, key)
    ensures var maps' := maps[Home(hash, key) := changed];
      && Placed(maps', hash)
      && SameExcept(Merged(maps), Merged(maps'), key)
      && Lookup(Merged(maps), key) == Lookup(maps[Home(hash, key)], key)
      && Lookup(Merged(maps'), key) == Lookup(changed, key)
  {
    hide Merged;
    var home := Home(hash, key);
    var maps' := maps[home := changed];
    forall i, k | 0 <= i < |maps'| && k in maps'[i]
      ensures Home(hash, k) == i
    {
      if i == home && k != key {
        assert Lookup(changed, k) == Lookup(maps[home], k);
      }
      assert k in maps[i] || k == key;
    }
    forall k
      ensures k != key ==> Lookup(Merged(maps'), k) == Lookup(Merged(maps), k)
    {
      MergedAt(maps, hash, k);
      MergedAt(maps', hash, k);
    }
    MergedAt(maps, hash, key);
    MergedAt(maps', hash, key);
  }

  lemma PutIs(before: Keyspace, after: Keyspace, key: Bytes)
    requires SameExcept(before, after, key)
    ensures after == Put(before, key, Lookup(after, key))
  {
    var put := Put(before, key, Lookup(after, key));
    forall k
      ensures Lookup(after, k) == Lookup(put, k)
    {
      if k != key {
        assert Lookup(after, k) == Lookup(before, k);
      }
    }
    Laws.SameLookups(after, put);
  }

  /** Dropping what has expired, shard by shard, is dropping it everywhere. */
  lemma {:induction false} MergedLive(maps: seq<Keyspace>, swept: seq<Keyspace>, hash: Bytes -> nat, now: Millis)
    requires |maps| == |swept| && Placed(maps, hash)
    requires forall i :: 0 <= i < |maps| ==> swept[i] == Live(maps[i], now)
    ensures Placed(swept, hash) && Merged(swept) == Live(Merged(maps), now)
  {
    hide Home;
    forall k
      ensures Lookup(Merged(swept), k) == Lookup(Live(Merged(maps), now), k)
    {
      MergedAt(maps, hash, k);
      MergedAt(swept, hash, k);
    }
    Laws.SameLookups(Merged(swept), Live(Merged(maps), now));
  }

  // ---- snapshots ----

  type Snapshot = seq<(Bytes, Option<Entry>)>

  /** Each of the keys once, in order, with what is stored there. */
  ghost predicate IsSnapshot(snapshot: Snapshot, keys: seq<Bytes>, m: Keyspace) {
    && (forall i :: 0 <= i < |snapshot| ==> snapshot[i].0 in keys && snapshot[i].1 == Lookup(m, snapshot[i].0))
    && (forall k :: k in keys ==> exists i :: 0 <= i < |snapshot| && snapshot[i].0 == k)
    && (forall i, j :: 0 <= i < j < |snapshot| ==> snapshot[i].0 != snapshot[j].0)
    && InKeyOrder(snapshot)
  }

  function Restored(m: Keyspace, snapshot: Snapshot): Keyspace {
    if snapshot == [] then m
    else Put(Restored(m, snapshot[..|snapshot| - 1]), snapshot[|snapshot| - 1].0, snapshot[|snapshot| - 1].1)
  }

  lemma {:induction false} RestoredAt(m: Keyspace, snapshot: Snapshot, key: Bytes)
    requires forall i, j :: 0 <= i < j < |snapshot| ==> snapshot[i].0 != snapshot[j].0
    ensures (forall i :: 0 <= i < |snapshot| ==> snapshot[i].0 != key) ==> Lookup(Restored(m, snapshot), key) == Lookup(m, key)
    ensures forall i :: 0 <= i < |snapshot| && snapshot[i].0 == key ==> Lookup(Restored(m, snapshot), key) == snapshot[i].1
  {
    if snapshot != [] {
      var init := snapshot[..|snapshot| - 1];
      assert forall i :: 0 <= i < |init| ==> init[i] == snapshot[i];
      RestoredAt(m, init, key);
    }
  }

  /** Restoring a snapshot undoes every change to its keys. */
  lemma RestoreUndoes(before: Keyspace, after: Keyspace, keys: seq<Bytes>, snapshot: Snapshot)
    requires IsSnapshot(snapshot, keys, before) && Laws.SameOutside(before, after, keys)
    ensures Restored(after, snapshot) == before
  {
    forall k
      ensures Lookup(Restored(after, snapshot), k) == Lookup(before, k)
    {
      RestoredAt(after, snapshot, k);
      if k in keys {
        var i :| 0 <= i < |snapshot| && snapshot[i].0 == k;
      }
    }
    Laws.SameLookups(Restored(after, snapshot), before);
  }

  /** ... and with sweeps in between, it still gives back the live view. */
  lemma RestoreUndoesLive(before: Keyspace, after: Keyspace, keys: seq<Bytes>, snapshot: Snapshot, now: Millis)
    requires IsSnapshot(snapshot, keys, before)
    requires Laws.SameOutside(Live(before, now), Live(after, now), keys)
    ensures Live(Restored(after, snapshot), now) == Live(before, now)
  {
    forall k
      ensures Lookup(Live(Restored(after, snapshot), now), k) == Lookup(Live(before, now), k)
    {
      RestoredAt(after, snapshot, k);
      if k in keys {
        var i :| 0 <= i < |snapshot| && snapshot[i].0 == k;
      } else {
        assert Lookup(Live(before, now), k) == Lookup(Live(after, now), k);
        assert forall i :: 0 <= i < |snapshot| ==> snapshot[i].0 != k;
      }
    }
    Laws.SameLookups(Live(Restored(after, snapshot), now), Live(before, now));
  }

  /** A list of entries holds a keyspace: each key once, in order. */
  ghost predicate Holds(entries: seq<(Bytes, Entry)>, m: Keyspace) {
    Lists(entries, m) && InKeyOrder(entries)
  }

  class Db {
    const shards: seq<Shard>
    /** The key hash (xxh64): any deterministic function. */
    const hash: Bytes -> nat

    ghost predicate Valid()
      reads shards
    {
      && |shards| == SHARDS
      && (forall i, j :: 0 <= i < j < SHARDS ==> shards[i] != shards[j])
      && (forall i :: 0 <= i < SHARDS ==> shards[i].Valid())
      && Placed(Maps(), hash)
    }

    ghost function Maps(): (maps: seq<Keyspace>)
      reads shards
      ensures |maps| == |shards|
    {
      seq(|shards|, i requires 0 <= i < |shards| reads shards => shards[i].entries)
    }

    /** The entries of all shards as one map. */
    ghost function Contents(): Keyspace
      reads shards
    {
      Merged(Maps())
    }

    constructor (hash: Bytes -> nat)
      ensures Valid() && Contents() == map[] && this.hash == hash
      ensures forall i :: 0 <= i < |shards| ==> fresh(shards[i])
    {
      var made: seq<Shard> := [];
      for i := 0 to SHARDS
        invariant |made| == i
        invariant forall a, b :: 0 <= a < b < i ==> made[a] != made[b]
        invariant forall a :: 0 <= a < i ==> fresh(made[a]) && made[a].Valid() && made[a].entries == map[]
      {
        var s := new Shard();
        made := made + [s];
      }
      this.hash := hash;
      shards := made;
      new;
      forall k
        ensures Lookup(Contents(), k) == Lookup(map[], k)
      {
        MergedAt(Maps(), hash, k);
      }
      Laws.SameLookups(Contents(), map[]);
    }

    /** After one shard changed at one key, what the whole looks like. */
    ghost method Settle(key: Bytes, before: seq<Keyspace>)
      requires |shards| == SHARDS && |before| == SHARDS && Placed(before, hash)
      requires forall i, j :: 0 <= i < j < SHARDS ==> shards[i] != shards[j]
      requires forall i :: 0 <= i < SHARDS ==> shards[i].Valid()
      requires forall i :: 0 <= i < SHARDS && i != Home(hash, key) ==> shards[i].entries == before[i]
      requires SameExcept(before[Home(hash, key)], shards[Home(hash, key)].entries, key)
      ensures Valid() && SameExcept(Merged(before), Contents(), key)
      ensures Lookup(Merged(before), key) == Lookup(before[Home(hash, key)], key)
      ensures Lookup(Contents(), key) == Lookup(shards[Home(hash, key)].entries, key)
    {
      OneKeyChanged(before, hash, key, shards[Home(hash, key)].entries);
      assert Maps() == before[Home(hash, key) := shards[Home(hash, key)].entries];
    }

    /** A command about one key. */
    method ApplyKeyed(c: Command, now: Millis) returns (r: Frame)
      requires Valid() && Keyed(c)
      modifies shards
      ensures Valid() && Refines(old(Contents()), c, now, Contents(), r)
    {
      hide Updates, Refines, Merged, Indexes, Placed, SameExcept, Home;
      ghost var before := Maps();
      var shard := shards[Home(hash, c.key)];
      r := shard.ApplyKeyed(c, now);
      UpdatesIsLocal(before[Home(hash, c.key)], shard.entries, c, now, r);
      Settle(c.key, before);
      UpdatesLifts(before[Home(hash, c.key)], shard.entries, Merged(before), Contents(), c, now, r);
      UpdatesRefines(Merged(before), Contents(), c, now, r);
    }

    /** One key of DEL: a stale entry goes uncounted. */
    method DelKey(key: Bytes, now: Millis) returns (counted: bool)
      requires Valid()
      modifies shards
      ensures Valid() && Contents() == old(Contents()) - {key} && counted == (key in Live(old(Contents()), now))
    {
      hide Merged, Indexes, Placed, Home;
      ghost var before := Maps();
      var shard := shards[Home(hash, key)];
      counted := false;
      var stale := shard.ExpireIfStale(key, now);
      if !stale {
        var removed := shard.RemoveEntry(key);
        counted := removed.Some?;
      }
      Settle(key, before);
      PutIs(Merged(before), Contents(), key);
    }

    method Del(keys: seq<Bytes>, now: Millis) returns (r: Frame)
      requires Valid()
      modifies shards
      ensures Valid() && Refines(old(Contents()), Command.Del(keys), now, Contents(), r)
    {
      hide Valid, Contents, Refines;
      var removed := 0;
      ghost var before := Contents();
      for i := 0 to |keys|
        invariant Valid() && Contents() == before - (set k | k in keys[..i])
        invariant removed + DelCount(Live(Contents(), now), keys[i..]) == DelCount(Live(before, now), keys)
      {
        assert keys[i..][0] == keys[i] && keys[i..][1..] == keys[i + 1..];
        assert keys[..i + 1] == keys[..i] + [keys[i]];
        LiveWithout(Contents(), {keys[i]}, now);
        var counted := DelKey(keys[i], now);
        if counted {
          removed := removed + 1;
        }
      }
      assert keys[..|keys|] == keys;
      DelRefines(before, keys, now);
      r := Integer(removed);
    }

    /** The live entry of a key, read from its shard. */
    method Peek(key: Bytes, now: Millis) returns (e: Option<Entry>)
      requires Valid()
      ensures e == Lookup(Live(Contents(), now), key)
    {
      hide Indexes, Merged, Home;
      MergedAt(Maps(), hash, key);
      var shard := shards[Home(hash, key)];
      if key in shard.entries && !Expired(shard.entries[key], now) {
        return Some(shard.entries[key]);
      }
      return None;
    }

    method Exists(keys: seq<Bytes>, now: Millis) returns (r: Frame)
      requires Valid()
      ensures r == Integer(ExistsCount(Live(Contents(), now), keys))
    {
      hide Valid, Contents;
      var count := 0;
      for i := 0 to |keys|
        invariant count + ExistsCount(Live(Contents(), now), keys[i..]) == ExistsCount(Live(Contents(), now), keys)
      {
        assert keys[i..][0] == keys[i] && keys[i..][1..] == keys[i + 1..];
        var e := Peek(keys[i], now);
        if e.Some? {
          count := count + 1;
        }
      }
      return Integer(count);
    }

    /** MGET keeps a running total of the reply and refuses when it passes the limit, which is exactly
        when the whole reply would. */
    method MGet(keys: seq<Bytes>, now: Millis) returns (r: Frame)
      requires Valid()
      ensures r == Bounded(Array(MGetItems(Live(Contents(), now), keys)))
    {
      hide Valid, Contents, Encode, EncodeAll;
      ghost var items := MGetItems(Live(Contents(), now), keys);
      EncodedArrayLen(items);
      EncodeNothing();
      assert items[..0] == [];
      var header := RespArrayHeaderLen(|keys|);
      if header.None? {
        return TOO_LARGE;
      }
      var total: nat := header.value;
      var frames: seq<Frame> := [];
      for i := 0 to |keys|
        invariant total == HeaderLen(|keys|) + |EncodeAll(items[..i])|
        invariant frames == items[..i]
        invariant i > 0 ==> total <= MAX_RESPONSE_FRAME_BYTES
      {
        ItemPrefix(items, i);
        var e := Peek(keys[i], now);
        var frame := MGetItem(e);
        var len := 5;
        if frame.Bulk? {
          var bulkLen := RespBulkLen(|frame.data|);
          if bulkLen.None? {
            ItemLen(frame);
            return TOO_LARGE;
          }
          len := bulkLen.value;
        }
        ItemLen(frame);
        var ok, sum := CheckedAddResponseLen(total, len);
        if !ok {
          return TOO_LARGE;
        }
        total := sum;
        frames := frames + [frame];
      }
      assert items[..|keys|] == items;
      if keys == [] {
        EmptyArrayFits();
        assert items == [] && BulkArray([]) == Array([]);
      }
      return Array(frames);
    }

    /** One pair of MSET: any old deadline is dropped. */
    method SetKey(key: Bytes, entry: Entry)
      requires Valid()
      modifies shards
      ensures Valid() && Contents() == old(Contents())[key := entry]
    {
      hide Merged, Indexes, Placed, Home;
      ghost var before := Maps();
      shards[Home(hash, key)].InsertEntry(key, entry);
      Settle(key, before);
      PutIs(Merged(before), Contents(), key);
    }

    method DropKey(key: Bytes)
      requires Valid()
      modifies shards
      ensures Valid() && Contents() == old(Contents()) - {key}
    {
      hide Merged, Indexes, Placed, Home;
      ghost var before := Maps();
      var _ := shards[Home(hash, key)].RemoveEntry(key);
      Settle(key, before);
      PutIs(Merged(before), Contents(), key);
    }

    method MSet(pairs: seq<(Bytes, Bytes)>, now: Millis) returns (r: Frame)
      requires Valid()
      modifies shards
      ensures Valid() && Refines(old(Contents()), Command.MSet(pairs), now, Contents(), r)
    {
      hide Valid, Contents, BulkResponseFits;
      ghost var before := Contents();
      if exists i :: 0 <= i < |pairs| && !BulkResponseFits(|pairs[i].1|) {
        return TOO_LARGE;
      }
      for i := 0 to |pairs|
        invariant Valid()
        invariant SetAll(Contents(), pairs[i..]) == SetAll(before, pairs)
      {
        assert pairs[i..][0] == pairs[i] && pairs[i..][1..] == pairs[i + 1..];
        SetKey(pairs[i].0, Entry(Str(pairs[i].1), None));
      }
      Laws.SetAllLive(before, pairs, now);
      Laws.SetAllKeys(before, pairs);
      return OK;
    }

    /** `Command::apply`. */
    method Apply(c: Command, now: Millis) returns (r: Frame)
      requires Valid()
      modifies shards
      ensures Valid() && Refines(old(Contents()), c, now, Contents(), r)
    {
      hide Valid, Contents, KeyExec, DelAll, SetAll, MGetItems;
      if Keyed(c) {
        r := ApplyKeyed(c, now);
      } else {
        match c
        case Del(keys) => r := Del(keys, now);
        case MSet(pairs) => r := MSet(pairs, now);
        case Exists(keys) => r := Exists(keys, now);
        case MGet(keys) => r := MGet(keys, now);
        case _ => r := KeylessReply(c);
      }
    }

    /** `snapshot_entries`: the stored entries of the keys, sorted and each key once. */
    method SnapshotEntries(keys: seq<Bytes>) returns (snapshot: Snapshot)
      requires Valid()
      ensures IsSnapshot(snapshot, keys, Contents())
    {
      hide Merged, Indexes, Home, SortedOnce, Ascending, InKeyOrder;
      var sorted := SortedOnce(keys);
      snapshot := [];
      for i := 0 to |sorted|
        invariant |snapshot| == i
        invariant forall j :: 0 <= j < i ==> snapshot[j] == (sorted[j], Lookup(Contents(), sorted[j]))
      {
        MergedAt(Maps(), hash, sorted[i]);
        snapshot := snapshot + [(sorted[i], Lookup(shards[Home(hash, sorted[i])].entries, sorted[i]))];
      }
      AllSnapped(snapshot, sorted, keys, Contents());
    }

    /** `restore_entries`. */
    method RestoreEntries(snapshot: Snapshot)
      requires Valid()
      modifies shards
      ensures Valid() && Contents() == Restored(old(Contents()), snapshot)
    {
      hide Valid, Contents;
      for i := 0 to |snapshot|
        invariant Valid() && Contents() == Restored(old(Contents()), snapshot[..i])
      {
        assert snapshot[..i + 1][..i] == snapshot[..i];
        var (key, saved) := snapshot[i];
        DropKey(key);
        if saved.Some? {
          SetKey(key, saved.value);
        }
      }
      assert snapshot[..|snapshot|] == snapshot;
    }

    /** `aof_snapshot_entries`: the live view, each key once, sorted. */
    method AofSnapshotEntries(now: Millis) returns (entries: seq<(Bytes, Entry)>)
      requires Valid()
      ensures Holds(entries, Live(Contents(), now))
    {
      hide Lists, InKeyOrder, Sorted, Indexes, Placed, Merged;
      entries := [];
      ghost var maps := Maps();
      NothingHeld(now);
      for i := 0 to SHARDS
        invariant Lists(entries, Live(Merged(maps[..i]), now))
      {
        var some := LiveEntries(shards[i].entries, now);
        JoinShard(maps, hash, i, now);
        ListsJoin(entries, some, Live(Merged(maps[..i]), now), Live(maps[i], now));
        entries := entries + some;
      }
      assert maps[..SHARDS] == maps;
      SortedLists(entries, Live(Merged(maps), now));
      entries := Sorted(entries);
    }

    /** `sweep_once`: afterwards nothing that is due remains. */
    method SweepOnce(now: Millis)
      requires Valid()
      modifies shards
      ensures Valid() && Contents() == Live(old(Contents()), now)
    {
      hide Merged, Indexes, Placed, Home;
      ghost var before := Maps();
      for i := 0 to SHARDS
        invariant forall j :: 0 <= j < SHARDS ==> shards[j].Valid()
        invariant forall j :: 0 <= j < i ==> shards[j].entries == Live(before[j], now)
        invariant forall j :: i <= j < SHARDS ==> shards[j].entries == before[j]
      {
        shards[i].Sweep(now);
      }
      MergedLive(before, Maps(), hash, now);
    }
  }

  /** The live entries under the keys walked so far. */
  ghost predicate Walked(entries: seq<(Bytes, Entry)>, m: Keyspace, now: Millis, keys: seq<Bytes>) {
    && (forall j :: 0 <= j < |entries| ==> entries[j].0 in keys && Lookup(Live(m, now), entries[j].0) == Some(entries[j].1))
    && (forall k :: k in keys && k in Live(m, now) ==> exists j :: 0 <= j < |entries| && entries[j].0 == k)
    && forall a, b :: 0 <= a < b < |entries| ==> entries[a].0 != entries[b].0
  }

  lemma WalksOn(entries: seq<(Bytes, Entry)>, m: Keyspace, now: Millis, keys: seq<Bytes>, key: Bytes)
    requires Walked(entries, m, now, keys) && key in m && key !in keys
    ensures Walked(if Expired(m[key], now) then entries else entries + [(key, m[key])], m, now, keys + [key])
  {
    if !Expired(m[key], now) {
      var more := entries + [(key, m[key])];
      assert more[|entries|].0 == key;
      forall k | k in keys && k in Live(m, now)
        ensures exists j :: 0 <= j < |more| && more[j].0 == k
      {
        var j :| 0 <= j < |entries| && entries[j].0 == k;
        assert more[j].0 == k;
      }
    }
  }

  /** The entries of one shard that are not due, in the order of the hash map. */
  method LiveEntries(m: Keyspace, now: Millis) returns (entries: seq<(Bytes, Entry)>)
    ensures Lists(entries, Live(m, now))
  {
    var order := HashOrder(m);
    entries := [];
    for i := 0 to |order|
      invariant Walked(entries, m, now, order[..i])
    {
      hide *;
      assert order[..i + 1] == order[..i] + [order[i]];
      assert order[i] !in order[..i];
      WalksOn(entries, m, now, order[..i], order[i]);
      if !Expired(m[order[i]], now) {
        entries := entries + [(order[i], m[order[i]])];
      }
    }
    assert order[..|order|] == order;
  }

  lemma NothingHeld(now: Millis)
    ensures Lists([], Live(Merged([]), now))
  {
  }

  lemma JoinShard(maps: seq<Keyspace>, hash: Bytes -> nat, i: nat, now: Millis)
    requires i < |maps| && Placed(maps, hash)
    ensures forall k :: k in Merged(maps[..i]) ==> k !in maps[i]
    ensures Live(Merged(maps[..i + 1]), now) == Live(Merged(maps[..i]), now) + Live(maps[i], now)
  {
    hide Home;
    forall k | k in Merged(maps[..i])
      ensures k !in maps[i]
    {
      MergedAt(maps[..i], hash, k);
    }
    assert maps[..i + 1][..i] == maps[..i];
    assert Merged(maps[..i + 1]) == Merged(maps[..i]) + maps[i];
  }

  lemma AllSnapped(snapshot: Snapshot, sorted: seq<Bytes>, keys: seq<Bytes>, m: Keyspace)
    requires sorted == SortedOnce(keys) && |snapshot| == |sorted|
    requires forall j :: 0 <= j < |sorted| ==> snapshot[j] == (sorted[j], Lookup(m, sorted[j]))
    ensures IsSnapshot(snapshot, keys, m)
  {
    hide SortedOnce, Less;
    SortedOnceIs(keys);
    forall k | k in keys
      ensures exists i :: 0 <= i < |snapshot| && snapshot[i].0 == k
    {
      var i :| 0 <= i < |sorted| && sorted[i] == k;
      assert snapshot[i].0 == k;
    }
    InOrderIsDistinct(snapshot);
  }

  lemma ListsJoin(a: seq<(Bytes, Entry)>, b: seq<(Bytes, Entry)>, m: Keyspace, n: Keyspace)
    requires Lists(a, m) && Lists(b, n) && (forall k :: k in m ==> k !in n)
    ensures Lists(a + b, m + n)
  {
    forall k | k in m + n
      ensures exists i :: 0 <= i < |a + b| && (a + b)[i].0 == k
    {
      if k in n {
        var i :| 0 <= i < |b| && b[i].0 == k;
        assert (a + b)[|a| + i].0 == k;
      } else {
        var i :| 0 <= i < |a| && a[i].0 == k;
        assert (a + b)[i].0 == k;
      }
    }
    forall i, j | 0 <= i < j < |a + b|
      ensures (a + b)[i].0 != (a + b)[j].0
    {
      if i < |a| && j >= |a| {
        assert Lookup(m, a[i].0).Some? && Lookup(n, b[j - |a|].0).Some?;
      }
    }
  }

  lemma LiveWithout(m: Keyspace, gone: set<Bytes>, now: Millis)
    ensures Live(m - gone, now) == Live(m, now) - gone
  {
  }

  lemma DelRefines(m: Keyspace, keys: seq<Bytes>, now: Millis)
    ensures Refines(m, Del(keys), now, m - (set k | k in keys), Integer(DelCount(Live(m, now), keys)))
  {
    hide DelCount;
    LiveWithout(m, (set k | k in keys), now);
    Laws.DelAllIs(Live(m, now), keys);
  }

  lemma UpdatesIsLocal(before: Keyspace, after: Keyspace, c: Command, now: Millis, r: Frame)
    requires Keyed(c) && Updates(before, after, c, now, r)
    ensures SameExcept(before, after, c.key)
  {
  }

  /** The effect on one shard is the effect on the whole. */
  lemma UpdatesLifts(before: Keyspace, after: Keyspace, wholeBefore: Keyspace, wholeAfter: Keyspace,
                     c: Command, now: Millis, r: Frame)
    requires Keyed(c) && Updates(before, after, c, now, r)
    requires Lookup(wholeBefore, c.key) == Lookup(before, c.key)
    requires Lookup(wholeAfter, c.key) == Lookup(after, c.key)
    requires SameExcept(wholeBefore, wholeAfter, c.key)
    ensures Updates(wholeBefore, wholeAfter, c, now, r)
  {
    hide KeyExec, ListingMatches;
    if !c.IsWrite() {
      forall k
        ensures Lookup(wholeBefore, k) == Lookup(wholeAfter, k)
      {
      }
      Laws.SameLookups(wholeAfter, wholeBefore);
    }
  }

  // ---- the MGET total ----

  lemma EncodedArrayLen(items: seq<Frame>)
    ensures |Encode(Array(items))| == HeaderLen(|items|) + |EncodeAll(items)|
  {
  }

  lemma EncodeNothing()
    ensures EncodeAll([]) == []
  {
  }

  lemma ItemLen(f: Frame)
    requires f.Bulk? || f.Null?
    ensures |Encode(f)| == if f.Bulk? then BulkLen(|f.data|) else 5
  {
  }

  lemma ItemPrefix(items: seq<Frame>, i: nat)
    requires i < |items|
    ensures items[..i] + [items[i]] == items[..i + 1]
    ensures |EncodeAll(items[..i + 1])| == |EncodeAll(items[..i])| + |Encode(items[i])|
    ensures |EncodeAll(items[..i + 1])| <= |EncodeAll(items)|
  {
    hide Encode, EncodeAll;
    assert items[..i] + [items[i]] == items[..i + 1];
    EncodeAllSnoc(items[..i], items[i]);
    assert items == items[..i + 1] + items[i + 1..];
    EncodeAllAppend(items[..i + 1], items[i + 1..]);
  }
}
