/** What the replies to the commands on hashes say about each other: HGET reads what HSET stored last, and the other
    readings list exactly what HGET reads (`src/cmd/hash.rs`). */
module HashReads {
  import opened Base
  import opened Frames
  import opened Commands
  import opened Semantics
  import opened Reading
  import Conservation

  /** The key holds this hash. */
  predicate HoldsHash(m: Keyspace, key: Bytes, fields: map<Bytes, Bytes>, now: Millis) {
    At(m, key, now).Some? && At(m, key, now).value.value == Hash(fields)
  }

  // ---- reading ----

  lemma HashReplies(m: Keyspace, key: Bytes, f: Bytes, now: Millis)
    ensures Ask(m, HExists(key, f), now) == FieldExistsReply(At(m, key, now), f)
    ensures Ask(m, HLen(key), now) == FieldCountReply(At(m, key, now))
  {
    hide Live, FieldExistsReply, FieldCountReply;
  }

  lemma ListingReplies(m: Keyspace, key: Bytes, now: Millis)
    ensures Ask(m, HKeys(key), now) == ListingReply(HKeys(key), At(m, key, now))
    ensures Ask(m, HVals(key), now) == ListingReply(HVals(key), At(m, key, now))
    ensures Ask(m, HGetAll(key), now) == ListingReply(HGetAll(key), At(m, key, now))
  {
    hide Live, ListingReply;
  }

  /** HGET reads a field's value, HEXISTS whether there is one, HLEN how many fields there are. */
  lemma FieldReads(m: Keyspace, key: Bytes, fields: map<Bytes, Bytes>, f: Bytes, now: Millis)
    requires HoldsHash(m, key, fields, now)
    ensures Ask(m, HGet(key, f), now) == if f in fields then Bulk(fields[f]) else Null
    ensures Ask(m, HExists(key, f), now) == Integer(if Ask(m, HGet(key, f), now).Bulk? then 1 else 0)
    ensures Ask(m, HLen(key), now) == Integer(|fields|)
  {
    hide Ask;
    FieldIs(m, key, f, now);
    HashReplies(m, key, f, now);
  }

  /** The fields in some order, each once, their values, and both in turn. */
  ghost predicate Walks(names: seq<Bytes>, values: seq<Bytes>, both: seq<Bytes>, fields: map<Bytes, Bytes>) {
    && (forall f :: f in fields <==> f in names)
    && (forall i, j :: 0 <= i < j < |names| ==> names[i] != names[j])
    && |names| == |fields| && |values| == |names| && |both| == 2 * |names|
    && (forall i :: 0 <= i < |names| ==> names[i] in fields && values[i] == both[2 * i + 1] == fields[names[i]])
    && (forall i :: 0 <= i < |names| ==> both[2 * i] == names[i])
  }

  lemma {:induction false} InterleaveIs(fields: map<Bytes, Bytes>, order: seq<Bytes>, i: nat)
    requires forall j :: 0 <= j < |order| ==> order[j] in fields
    ensures var both := Interleave(fields, order);
      |both| == 2 * |order| && (i < |order| ==> both[2 * i] == order[i] && both[2 * i + 1] == fields[order[i]])
  {
    if order != [] {
      InterleaveIs(fields, order[1..], if i == 0 then 0 else i - 1);
    }
  }

  lemma {:induction false} EachOnce(order: seq<Bytes>, fields: map<Bytes, Bytes>)
    requires Enumerates(order, fields)
    ensures |order| == |fields|
    decreases |order|
  {
    if order != [] {
      var rest := fields - {order[0]};
      forall k | k in rest
        ensures k in order[1..]
      {
        assert k in order;
      }
      EachOnce(order[1..], rest);
      Conservation.OneRemoved(fields, order[0]);
    } else {
      assert forall k :: k !in fields;
    }
  }

  lemma OrderWalks(order: seq<Bytes>, fields: map<Bytes, Bytes>)
    requires Enumerates(order, fields)
    ensures Walks(order, ValuesIn(fields, order), Interleave(fields, order), fields)
  {
    hide Interleave;
    EachOnce(order, fields);
    InterleaveIs(fields, order, 0);
    forall i | 0 <= i < |order|
      ensures Interleave(fields, order)[2 * i] == order[i]
      ensures Interleave(fields, order)[2 * i + 1] == fields[order[i]]
    {
      InterleaveIs(fields, order, i);
    }
  }

  /** HKEYS replies with the fields, each once, HVALS with their values and HGETALL with both, all in the same order,
      or with a refusal if that takes more than 64 MiB. */
  lemma ListingsWalk(m: Keyspace, key: Bytes, fields: map<Bytes, Bytes>, now: Millis)
    requires HoldsHash(m, key, fields, now)
    ensures exists names, values, both ::
      && Walks(names, values, both, fields)
      && Ask(m, HKeys(key), now) == Limited(BulkArray(names))
      && Ask(m, HVals(key), now) == Limited(BulkArray(values))
      && Ask(m, HGetAll(key), now) == Limited(BulkArray(both))
  {
    hide Ask, Walks, Encode, BulkArray, Interleave, ValuesIn, Enumerates, SomeOrder;
    ListingReplies(m, key, now);
    OrderWalks(SomeOrder(fields), fields);
  }

  /** Without a hash there is nothing to read; other values are refused. */
  lemma NoHashReads(m: Keyspace, key: Bytes, f: Bytes, now: Millis)
    requires At(m, key, now).Some? ==> !At(m, key, now).value.value.Hash?
    ensures var some := At(m, key, now).Some?;
      && Ask(m, HGet(key, f), now) == (if some then WRONG_TYPE else Null)
      && Ask(m, HExists(key, f), now) == Ask(m, HLen(key), now) == (if some then WRONG_TYPE else Integer(0))
      && Ask(m, HKeys(key), now) == (if some then WRONG_TYPE else Array([]))
      && Ask(m, HVals(key), now) == Ask(m, HGetAll(key), now) == Ask(m, HKeys(key), now)
  {
    hide Ask;
    FieldIs(m, key, f, now);
    HashReplies(m, key, f, now);
    ListingReplies(m, key, now);
  }

  // ---- writing ----

  function Count(f: Frame): int {
    if f.Integer? then f.n else 0
  }

  /** The last value given for a field. */
  function LastValue(pairs: seq<(Bytes, Bytes)>, f: Bytes): Option<Bytes> {
    if pairs == [] then None
    else
      var last := pairs[|pairs| - 1];
      if last.0 == f then Some(last.1) else LastValue(pairs[..|pairs| - 1], f)
  }

  lemma {:induction false} LastValueOfRest(pairs: seq<(Bytes, Bytes)>, f: Bytes)
    requires pairs != []
    ensures LastValue(pairs, f)
         == if LastValue(pairs[1..], f).Some? then LastValue(pairs[1..], f) else LastValue(pairs[..1], f)
  {
    if |pairs| > 1 {
      var front := pairs[..|pairs| - 1];
      LastValueOfRest(front, f);
      assert front[1..] == pairs[1..][..|pairs| - 2] && front[..1] == pairs[..1];
    } else {
      assert pairs[..1] == pairs;
    }
  }

  lemma {:induction false} WithFieldsIs(fields: map<Bytes, Bytes>, pairs: seq<(Bytes, Bytes)>, f: Bytes)
    ensures var next := WithFields(fields, pairs);
      && (f in next <==> LastValue(pairs, f).Some? || f in fields)
      && (f in next ==> next[f] == if LastValue(pairs, f).Some? then LastValue(pairs, f).value else fields[f])
    decreases |pairs|
  {
    if pairs != [] {
      WithFieldsIs(fields[pairs[0].0 := pairs[0].1], pairs[1..], f);
      LastValueOfRest(pairs, f);
      assert pairs[..1] == [pairs[0]] && pairs[..1][..0] == [];
    }
  }

  lemma HSetIs(m: Keyspace, key: Bytes, pairs: seq<(Bytes, Bytes)>, at: Millis)
    ensures KeyExec(HSet(key, pairs), At(m, key, at), at) == SetFields(At(m, key, at), pairs)
  {
    hide SetFields, Live;
  }

  /** From HSET on HGET reads, of each field, the last value given, or what it read before where none was; the reply
      is how many fields there are more than before, and the deadline stays. */
  lemma HSetReadsBack(m: Keyspace, key: Bytes, pairs: seq<(Bytes, Bytes)>, at: Millis, run: Run, now: Millis, f: Bytes)
    requires Undisturbed(run, key, at, now) && Ask(m, HLen(key), at) != WRONG_TYPE
    ensures var r, after := Ask(m, HSet(key, pairs), at), After(m, HSet(key, pairs), at, run);
      && r.Integer?
      && if RanOut(m, key, at, now) then At(after, key, now).None?
         else
           && Ask(after, HGet(key, f), now)
              == (if LastValue(pairs, f).Some? then Bulk(LastValue(pairs, f).value) else Ask(m, HGet(key, f), at))
           && Ask(after, HLen(key), now) == Integer(Count(Ask(m, HLen(key), at)) + Count(r))
           && Ask(after, PTtl(key), now) == TimeLeft(m, key, at, now)
  {
    hide Live, Step, After, Ask, KeyExec, WithFields, AddedFields, LastValue;
    var cur := At(m, key, at);
    HashReplies(m, key, f, at);
    FieldIs(m, key, f, at);
    var fields := if cur.Some? then cur.value.value.fields else map[];
    HSetIs(m, key, pairs, at);
    WithFieldsIs(fields, pairs, f);
    Conservation.HSetCountsWhatItAdds(fields, pairs);
    AskedIs(m, HSet(key, pairs), at);
    AfterIs(m, HSet(key, pairs), at, run, now);
    LiveAt(m, key, at, now);
    var after := After(m, HSet(key, pairs), at, run);
    HashReplies(after, key, f, now);
    FieldIs(after, key, f, now);
    if !RanOut(m, key, at, now) {
      TimeKept(m, after, key, at, now);
    }
  }

  lemma HDelIs(m: Keyspace, key: Bytes, names: seq<Bytes>, at: Millis)
    ensures KeyExec(HDel(key, names), At(m, key, at), at) == DeleteFields(At(m, key, at), names)
  {
    hide DeleteFields, Live;
  }

  lemma Without(fields: map<Bytes, Bytes>, names: seq<Bytes>, f: Bytes)
    ensures var rest := fields - Conservation.Mentioned(names);
      && (f in rest <==> f in fields && f !in names) && (f in rest ==> rest[f] == fields[f])
      && (rest == map[] <==> |rest| == 0)
      && |rest| == |fields| - RemovedFields(fields, names)
  {
    hide RemovedFields;
    Conservation.HDelCountsWhatItRemoves(fields, names);
  }

  lemma DeletedReads(cur: Option<Entry>, names: seq<Bytes>, f: Bytes)
    requires cur.Some? ==> cur.value.value.Hash?
    ensures var o := DeleteFields(cur, names);
      && o.reply.Integer?
      && FieldReply(o.entry, f) == (if f in names then Null else FieldReply(cur, f))
      && FieldCountReply(o.entry) == Integer(Count(FieldCountReply(cur)) - Count(o.reply))
      && (o.entry.None? <==> FieldCountReply(o.entry) == Integer(0))
      && (o.entry.Some? ==> cur.Some? && o.entry.value.expiresAt == cur.value.expiresAt)
  {
    hide RemovedFields, Conservation.Mentioned;
    if cur.Some? {
      var fields := cur.value.value.fields;
      Without(fields, names, f);
      assert fields - (set n | n in names) == fields - Conservation.Mentioned(names) by {
        MentionedIs(names);
      }
    }
  }

  lemma MentionedIs(names: seq<Bytes>)
    ensures Conservation.Mentioned(names) == set n | n in names
  {
  }

  /** From HDEL on HGET reads none of the fields named and every other as before; the reply is how many fields there
      are fewer than before. With its last field the key goes; otherwise the deadline stays. */
  lemma HDelReadsBack(m: Keyspace, key: Bytes, names: seq<Bytes>, at: Millis, run: Run, now: Millis, f: Bytes)
    requires Undisturbed(run, key, at, now) && Ask(m, HLen(key), at) != WRONG_TYPE
    ensures var r, after := Ask(m, HDel(key, names), at), After(m, HDel(key, names), at, run);
      && r.Integer?
      && if RanOut(m, key, at, now) then At(after, key, now).None?
         else
           && Ask(after, HGet(key, f), now) == (if f in names then Null else Ask(m, HGet(key, f), at))
           && Ask(after, HLen(key), now) == Integer(Count(Ask(m, HLen(key), at)) - Count(r))
           && (At(after, key, now).None? <==> Ask(after, HLen(key), now) == Integer(0))
           && (At(after, key, now).Some? ==> Ask(after, PTtl(key), now) == TimeLeft(m, key, at, now))
  {
    hide Live, Step, After, Ask, KeyExec, DeleteFields, FieldReply, FieldCountReply;
    var cur, after := At(m, key, at), After(m, HDel(key, names), at, run);
    HashReplies(m, key, f, at);
    FieldIs(m, key, f, at);
    HDelIs(m, key, names, at);
    AskedIs(m, HDel(key, names), at);
    AfterIs(m, HDel(key, names), at, run, now);
    LiveAt(m, key, at, now);
    CountedHash(cur);
    DeletedReads(cur, names, f);
    HashReplies(after, key, f, now);
    FieldIs(after, key, f, now);
    if !RanOut(m, key, at, now) && At(after, key, now).Some? {
      TimeKept(m, after, key, at, now);
    }
  }

  lemma CountedHash(cur: Option<Entry>)
    ensures FieldCountReply(cur) != WRONG_TYPE <==> cur.None? || cur.value.value.Hash?
  {
  }
}
