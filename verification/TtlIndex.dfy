/** The expiration index of a shard: each deadline lists exactly the keys that carry it (`src/db/mod.rs`). */
module TtlIndex {
  import opened Base
  import opened Commands
  import opened Semantics

  /** Deadlines and the keys to look at then. */
  type Index = map<Millis, seq<Bytes>>

  predicate NoDuplicates(keys: seq<Bytes>) {
    forall i, j :: 0 <= i < j < |keys| ==> keys[i] != keys[j]
  }

  /** A key is listed at `t` exactly once iff its entry has deadline `t`; no row is empty. */
  ghost predicate Indexes(index: Index, entries: Keyspace) {
    && (forall t :: t in index ==> index[t] != [] && NoDuplicates(index[t]))
    && (forall t, k :: t in index && k in index[t] ==> k in entries && entries[k].expiresAt == Some(t))
    && (forall k :: k in entries && entries[k].expiresAt.Some? ==> Listed(index, entries[k].expiresAt.value, k))
  }

  predicate Listed(index: Index, t: Millis, key: Bytes) {
    t in index && key in index[t]
  }

  function DeadlineOf(entries: Keyspace, key: Bytes): Option<Millis> {
    if key in entries then entries[key].expiresAt else None
  }

  // ---- the two updates ----

  /** `retain(|k| k != key)`. */
  function Without(keys: seq<Bytes>, key: Bytes): (r: seq<Bytes>)
    ensures forall k :: k in r <==> k in keys && k != key
    ensures NoDuplicates(keys) ==> NoDuplicates(r)
  {
    if keys == [] then []
    else if keys[|keys| - 1] == key then Without(keys[..|keys| - 1], key)
    else
      assert NoDuplicates(keys) ==> keys[|keys| - 1] !in keys[..|keys| - 1];
      Without(keys[..|keys| - 1], key) + [keys[|keys| - 1]]
  }

  function Unindexed(index: Index, t: Millis, key: Bytes): Index {
    if t !in index then index
    else if Without(index[t], key) == [] then index - {t}
    else index[t := Without(index[t], key)]
  }

  function Pushed(index: Index, t: Millis, key: Bytes): Index {
    index[t := (if t in index then index[t] else []) + [key]]
  }

  function Reindexed(index: Index, before: Option<Millis>, after: Option<Millis>, key: Bytes): Index {
    var cleared := if before.Some? then Unindexed(index, before.value, key) else index;
    if after.Some? then Pushed(cleared, after.value, key) else cleared
  }

  /** The index without any row for `key`. */
  ghost predicate IndexesOthers(index: Index, entries: Keyspace, key: Bytes) {
    && (forall t :: t in index ==> index[t] != [] && NoDuplicates(index[t]))
    && (forall t :: t in index ==> key !in index[t])
    && (forall t, k :: t in index && k in index[t] ==> k in entries && entries[k].expiresAt == Some(t))
    && (forall k :: k in entries && k != key && entries[k].expiresAt.Some? ==> Listed(index, entries[k].expiresAt.value, k))
  }

  lemma UnindexedClears(index: Index, entries: Keyspace, key: Bytes)
    requires Indexes(index, entries)
    ensures IndexesOthers(Reindexed(index, DeadlineOf(entries, key), None, key), entries, key)
  {
    hide Without;
    var d := DeadlineOf(entries, key);
    var cleared := Reindexed(index, d, None, key);
    if d.Some? {
      var t := d.value;
      forall k | k in entries && k != key && entries[k].expiresAt.Some?
        ensures Listed(cleared, entries[k].expiresAt.value, k)
      {
        assert Listed(index, entries[k].expiresAt.value, k);
        assert entries[k].expiresAt.value == t ==> k in Without(index[t], key);
      }
    }
  }

  lemma PushedIndexes(index: Index, entries: Keyspace, key: Bytes, e: Option<Entry>)
    requires IndexesOthers(index, entries, key)
    ensures Indexes(Reindexed(index, None, if e.Some? then e.value.expiresAt else None, key), Put(entries, key, e))
  {
    var after := if e.Some? then e.value.expiresAt else None;
    var pushed := Reindexed(index, None, after, key);
    var entries' := Put(entries, key, e);
    if after.Some? {
      var t := after.value;
      var row := if t in index then index[t] else [];
      assert t in index ==> key !in index[t];
      assert pushed[t] == row + [key] && key !in row;
      assert key in pushed[t] && NoDuplicates(pushed[t]);
      forall k | k in entries' && entries'[k].expiresAt.Some?
        ensures Listed(pushed, entries'[k].expiresAt.value, k)
      {
        if k != key {
          assert Listed(index, entries[k].expiresAt.value, k);
        }
      }
    }
  }

  /** Replacing one entry keeps the index right when the row moves from the old deadline to the new. */
  lemma ReindexedIndexes(index: Index, entries: Keyspace, key: Bytes, e: Option<Entry>)
    requires Indexes(index, entries)
    ensures Indexes(Reindexed(index, DeadlineOf(entries, key), if e.Some? then e.value.expiresAt else None, key),
                    Put(entries, key, e))
  {
    hide Indexes, IndexesOthers, Unindexed;
    UnindexedClears(index, entries, key);
    PushedIndexes(Reindexed(index, DeadlineOf(entries, key), None, key), entries, key, e);
  }

  /** The entries determine the index, up to the order of keys in a row. */
  lemma IndexIsDetermined(a: Index, b: Index, entries: Keyspace)
    requires Indexes(a, entries) && Indexes(b, entries)
    ensures a.Keys == b.Keys
    ensures forall t :: t in a ==> multiset(a[t]) == multiset(b[t])
  {
    IndexCovers(a, b, entries);
    IndexCovers(b, a, entries);
    forall t | t in a
      ensures multiset(a[t]) == multiset(b[t])
    {
      SameElements(a[t], b[t]);
    }
  }

  lemma IndexCovers(a: Index, b: Index, entries: Keyspace)
    requires Indexes(a, entries) && Indexes(b, entries)
    ensures a.Keys <= b.Keys
    ensures forall t, k :: t in a && k in a[t] ==> t in b && k in b[t]
  {
    forall t | t in a
      ensures t in b
    {
      var k := a[t][0];
      assert k in a[t];
      assert k in entries && entries[k].expiresAt == Some(t);
      assert Listed(b, t, k);
    }
    forall t, k | t in a && k in a[t]
      ensures t in b && k in b[t]
    {
      assert k in entries && entries[k].expiresAt == Some(t);
      assert Listed(b, t, k);
    }
  }

  lemma {:induction false} CountOne(keys: seq<Bytes>, k: Bytes)
    requires NoDuplicates(keys)
    ensures multiset(keys)[k] == if k in keys then 1 else 0
  {
    if keys != [] {
      var init := keys[..|keys| - 1];
      assert keys == init + [keys[|keys| - 1]];
      CountOne(init, k);
    }
  }

  lemma SameElements(a: seq<Bytes>, b: seq<Bytes>)
    requires NoDuplicates(a) && NoDuplicates(b) && (forall k :: k in a <==> k in b)
    ensures multiset(a) == multiset(b)
  {
    forall k
      ensures multiset(a)[k] == multiset(b)[k]
    {
      CountOne(a, k);
      CountOne(b, k);
    }
  }
}
