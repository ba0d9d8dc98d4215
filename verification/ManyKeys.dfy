/** DEL, EXISTS, MGET and MSET told key by key, by what a client reads of each key alone (`src/cmd/string.rs`). */
module ManyKeys {
  import opened Base
  import opened Limits
  import opened Frames
  import opened Commands
  import opened Semantics
  import opened Reading
  import Conservation
  import HashReads
  import Laws
  import Queues

  /** PTTL reads that something is there. */
  ghost predicate There(m: Keyspace, key: Bytes, now: Millis) {
    Ask(m, PTtl(key), now) != Integer(-2)
  }

  lemma ThereIs(m: Keyspace, key: Bytes, now: Millis)
    ensures There(m, key, now) <==> key in Live(m, now)
  {
    hide Ask;
    TimeIs(m, key, now);
  }

  // ---- EXISTS and DEL ----

  ghost function Mentions(m: Keyspace, keys: seq<Bytes>, now: Millis): nat {
    if keys == [] then 0
    else Mentions(m, keys[..|keys| - 1], now) + if There(m, keys[|keys| - 1], now) then 1 else 0
  }

  lemma {:induction false} ExistsCountSnoc(m: Keyspace, keys: seq<Bytes>, k: Bytes)
    ensures ExistsCount(m, keys + [k]) == ExistsCount(m, keys) + if k in m then 1 else 0
  {
    if keys != [] {
      assert (keys + [k])[1..] == keys[1..] + [k];
      ExistsCountSnoc(m, keys[1..], k);
    } else {
      assert ([] + [k])[1..] == [];
    }
  }

  lemma {:induction false} MentionsIs(m: Keyspace, keys: seq<Bytes>, now: Millis)
    ensures Mentions(m, keys, now) == ExistsCount(Live(m, now), keys)
  {
    hide There, Live, ExistsCount;
    if keys != [] {
      var front, k := keys[..|keys| - 1], keys[|keys| - 1];
      assert keys == front + [k];
      MentionsIs(m, front, now);
      ThereIs(m, k, now);
      ExistsCountSnoc(Live(m, now), front, k);
    } else {
      NoneCounted(Live(m, now));
    }
  }

  lemma NoneCounted(m: Keyspace)
    ensures ExistsCount(m, []) == 0
  {
  }

  /** EXISTS counts the keys that are there, each as often as it is mentioned. */
  lemma ExistsCounts(m: Keyspace, keys: seq<Bytes>, now: Millis)
    ensures Ask(m, Exists(keys), now) == Integer(Mentions(m, keys, now))
    ensures Step(m, Exists(keys), now).db == Live(m, now)
  {
    hide Mentions, ExistsCount, Live;
    MentionsIs(m, keys, now);
  }

  lemma DelAsked(m: Keyspace, keys: seq<Bytes>, now: Millis)
    ensures Step(m, Del(keys), now)
         == Executed(Live(m, now) - Conservation.Mentioned(keys), Integer(DelCount(Live(m, now), keys)))
  {
    hide Live, DelAll, DelCount;
    Laws.DelAllIs(Live(m, now), keys);
  }

  lemma DelCounts(m: Keyspace, keys: seq<Bytes>, now: Millis)
    ensures DelCount(Live(m, now), keys) == |set k | k in keys && There(m, k, now)|
  {
    hide Live, There, DelCount, DelAll;
    var v, gone := Live(m, now), set k | k in keys && There(m, k, now);
    forall k
      ensures k in gone <==> k in keys && k in v
    {
      ThereIs(m, k, now);
    }
    Laws.DelAllIs(v, keys);
    Conservation.DelCountsWhatItRemoves(v, keys);
    Taken(v, DelAll(v, keys), gone);
  }

  /** DEL replies how many of the keys were there, each counted once; from then on none of them is. */
  lemma DelReadsBack(m: Keyspace, keys: seq<Bytes>, at: Millis, run: Run, now: Millis, key: Bytes)
    requires key in keys && Undisturbed(run, key, at, now)
    ensures Ask(m, Del(keys), at) == Integer(|set k | k in keys && There(m, k, at)|)
    ensures !There(After(m, Del(keys), at, run), key, now)
  {
    hide Live, There, DelCount, RunDb, Step;
    DelAsked(m, keys, at);
    DelCounts(m, keys, at);
    Queues.EntryStays(Step(m, Del(keys), at).db, run, key, None, at, now);
    StillThere(After(m, Del(keys), at, run), key, now);
  }

  lemma Taken(m: Keyspace, rest: Keyspace, gone: set<Bytes>)
    requires gone <= m.Keys && rest == m - gone
    ensures |m| - |rest| == |gone|
  {
    Conservation.SizeIsKeys(m);
    Conservation.SizeIsKeys(rest);
    assert rest.Keys == m.Keys - gone;
  }

  lemma StillThere(m: Keyspace, key: Bytes, now: Millis)
    ensures There(m, key, now) <==> Fresh(Lookup(m, key), now).Some?
  {
    hide There;
    ThereIs(m, key, now);
  }

  // ---- MGET and MSET ----

  lemma MGetAsked(m: Keyspace, keys: seq<Bytes>, now: Millis)
    ensures Ask(m, MGet(keys), now) == Limited(Array(MGetItems(Live(m, now), keys)))
    ensures Step(m, MGet(keys), now).db == Live(m, now)
  {
    hide Live, MGetItems, Encode;
  }

  /** What GET reads, with a null where it refuses the type. */
  ghost function Got(m: Keyspace, key: Bytes, now: Millis): Frame {
    var one := Ask(m, Get(key), now);
    if one.Bulk? then one else Null
  }

  /** One item for each key, in their order. */
  ghost predicate Gets(items: seq<Frame>, m: Keyspace, keys: seq<Bytes>, now: Millis) {
    |items| == |keys| && forall i :: 0 <= i < |keys| ==> items[i] == Got(m, keys[i], now)
  }

  /** MGET replies, key by key in their order, with what GET reads, but with a null where GET refuses the type; all is
      refused if it takes more than 64 MiB. */
  lemma MGetIsGets(m: Keyspace, keys: seq<Bytes>, now: Millis)
    ensures exists items :: Gets(items, m, keys, now) && Ask(m, MGet(keys), now) == Limited(Array(items))
  {
    hide Live, Ask, Limited, Got;
    var items := MGetItems(Live(m, now), keys);
    forall i | 0 <= i < |keys|
      ensures items[i] == Got(m, keys[i], now)
    {
      GotIs(m, keys[i], now);
    }
    MGetAsked(m, keys, now);
    assert Gets(items, m, keys, now);
  }

  lemma GotIs(m: Keyspace, key: Bytes, now: Millis)
    ensures Got(m, key, now) == MGetItem(Lookup(Live(m, now), key))
  {
    hide Live, Ask;
    GetIs(m, key, now);
  }

  lemma {:induction false} SetAllIs(m: Keyspace, pairs: seq<(Bytes, Bytes)>, key: Bytes)
    ensures var last := HashReads.LastValue(pairs, key);
      Lookup(SetAll(m, pairs), key) == if last.Some? then Some(Entry(Str(last.value), None)) else Lookup(m, key)
    decreases |pairs|
  {
    if pairs != [] {
      SetAllIs(m[pairs[0].0 := Entry(Str(pairs[0].1), None)], pairs[1..], key);
      HashReads.LastValueOfRest(pairs, key);
      assert pairs[..1] == [pairs[0]] && pairs[..1][..0] == [];
    }
  }

  /** MSET stores all or nothing: it is refused exactly if a value is too long for a reply. Otherwise GET reads, of
      each key, the last value given, without a deadline, and every key that was not named is as it was. */
  lemma MSetReadsBack(m: Keyspace, pairs: seq<(Bytes, Bytes)>, at: Millis, run: Run, now: Millis, key: Bytes)
    requires Undisturbed(run, key, at, now)
    ensures var after, last := After(m, MSet(pairs), at, run), HashReads.LastValue(pairs, key);
      if exists i :: 0 <= i < |pairs| && |Encode(Bulk(pairs[i].1))| > 64 * 1024 * 1024
      then Step(m, MSet(pairs), at) == Executed(Live(m, at), TOO_LARGE)
      else
        && Ask(m, MSet(pairs), at) == OK
        && (last.Some? ==> Ask(after, Get(key), now) == Bulk(last.value) && Ask(after, PTtl(key), now) == Integer(-1))
        && (last.None? ==> At(after, key, now) == Fresh(At(m, key, at), now))
  {
    hide Live, SetAll, RunDb, HashReads.LastValue;
    var v, last, after := Live(m, at), HashReads.LastValue(pairs, key), After(m, MSet(pairs), at, run);
    FitsIs(pairs);
    if PairsFit(pairs) {
      SetAllIs(v, pairs, key);
      var e := if last.Some? then Some(Entry(Str(last.value), None)) else Lookup(v, key);
      Queues.EntryStays(SetAll(v, pairs), run, key, e, at, now);
      LookupLive(after, key, now);
      GetIs(after, key, now);
      TimeIs(after, key, now);
    }
  }

  lemma LookupLive(m: Keyspace, key: Bytes, now: Millis)
    ensures At(m, key, now) == Fresh(Lookup(m, key), now)
  {
  }

  lemma FitsIs(pairs: seq<(Bytes, Bytes)>)
    ensures PairsFit(pairs) <==> !exists i :: 0 <= i < |pairs| && |Encode(Bulk(pairs[i].1))| > 64 * 1024 * 1024
  {
    hide RespBulkLen;
    assert forall i :: 0 <= i < |pairs| ==> |Encode(Bulk(pairs[i].1))| == BulkLen(|pairs[i].1|);
  }

  /** SET is refused exactly if the value is too long for a reply. */
  lemma SetRefusedIff(m: Keyspace, key: Bytes, value: Bytes, expiresAt: Option<Millis>, at: Millis)
    ensures var r := Step(m, Set(key, value, expiresAt), at);
      if |Encode(Bulk(value))| <= 64 * 1024 * 1024 then r.reply == OK
      else r == Executed(Live(m, at), TOO_LARGE)
  {
    hide Live;
    LiveAt(m, key, at, at);
    AskedIs(m, Set(key, value, expiresAt), at);
  }
}
