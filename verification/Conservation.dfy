/** What commands say about each other: counts that add up, and commands that undo or read back
    others (`src/cmd/string.rs`, `src/cmd/list.rs`, `src/cmd/hash.rs`). */
module Conservation {
  import opened Base
  import opened Limits
  import opened Frames
  import opened Commands
  import opened Semantics
  import Laws

  // ---- counting ----

  /** DEL replies with the number of keys that are gone. */
  lemma {:induction false} DelCountsWhatItRemoves(m: Keyspace, keys: seq<Bytes>)
    ensures |m| == DelCount(m, keys) + |DelAll(m, keys)|
    decreases |keys|
  {
    if keys != [] {
      var k := keys[0];
      assert (m - {k}).Keys == m.Keys - {k};
      SizeIsKeys(m);
      SizeIsKeys(m - {k});
      DelCountsWhatItRemoves(m - {k}, keys[1..]);
    }
  }

  lemma SizeIsKeys<K, V>(m: map<K, V>)
    ensures |m| == |m.Keys|
  {
  }

  /** HSET replies with the growth of the hash. */
  lemma {:induction false} HSetCountsWhatItAdds(fields: map<Bytes, Bytes>, pairs: seq<(Bytes, Bytes)>)
    ensures |WithFields(fields, pairs)| == |fields| + AddedFields(fields, pairs)
    decreases |pairs|
  {
    if pairs != [] {
      var f := pairs[0].0;
      var next := fields[f := pairs[0].1];
      assert next.Keys == fields.Keys + {f};
      SizeIsKeys(fields);
      SizeIsKeys(next);
      HSetCountsWhatItAdds(next, pairs[1..]);
    }
  }

  /** HDEL replies with the shrinking of the hash. */
  lemma {:induction false} HDelCountsWhatItRemoves(fields: map<Bytes, Bytes>, names: seq<Bytes>)
    ensures |fields| == RemovedFields(fields, names) + |fields - Mentioned(names)|
    decreases |names|
  {
    hide Mentioned;
    NoneMentioned(fields);
    if names != [] {
      HDelCountsWhatItRemoves(fields - {names[0]}, names[1..]);
      OneLess(fields, names);
      OneRemoved(fields, names[0]);
    }
  }

  /** The names of an HDEL as a set: what `DeleteFields` takes out. */
  function Mentioned(names: seq<Bytes>): set<Bytes> {
    set n | n in names
  }

  lemma NoneMentioned(fields: map<Bytes, Bytes>)
    ensures fields - Mentioned([]) == fields
  {
  }

  lemma OneLess(fields: map<Bytes, Bytes>, names: seq<Bytes>)
    requires names != []
    ensures (fields - {names[0]}) - Mentioned(names[1..]) == fields - Mentioned(names)
  {
    var rest, all := Mentioned(names[1..]), Mentioned(names);
    forall n
      ensures n in all <==> n == names[0] || n in rest
    {
    }
  }

  lemma OneRemoved(fields: map<Bytes, Bytes>, f: Bytes)
    ensures |fields| == |fields - {f}| + if f in fields then 1 else 0
  {
    assert (fields - {f}).Keys == fields.Keys - {f};
    SizeIsKeys(fields);
    SizeIsKeys(fields - {f});
  }

  /** EXISTS counts each mention; on distinct keys it counts what DEL would remove. */
  lemma {:induction false} ExistsCountsLikeDel(m: Keyspace, keys: seq<Bytes>)
    requires forall i, j :: 0 <= i < j < |keys| ==> keys[i] != keys[j]
    ensures ExistsCount(m, keys) == DelCount(m, keys)
    decreases |keys|
  {
    if keys != [] {
      var k, rest := keys[0], keys[1..];
      forall i | 0 <= i < |rest|
        ensures rest[i] != k
      {
        assert rest[i] == keys[i + 1];
      }
      ExistsCountsLikeDel(m, rest);
      DelCountIgnores(m, k, rest);
    }
  }

  lemma {:induction false} DelCountIgnores(m: Keyspace, k: Bytes, keys: seq<Bytes>)
    requires k !in keys
    ensures DelCount(m - {k}, keys) == DelCount(m, keys)
    decreases |keys|
  {
    if keys != [] {
      assert (m - {k}) - {keys[0]} == (m - {keys[0]}) - {k};
      DelCountIgnores(m - {keys[0]}, k, keys[1..]);
    }
  }

  // ---- strings and deadlines ----

  ghost function On(c: Command, cur: Option<Entry>, now: Millis): Outcome
    requires Keyed(c)
  {
    KeyExec(c, cur, now)
  }

  /** DECRBY undoes INCRBY: the number is back, printed plainly, with the deadline it had. */
  lemma DecrUndoesIncr(key: Bytes, n: int, v: int, deadline: Option<Millis>, now: Millis)
    requires IsI64(v) && IsI64(n) && IsI64(-n) && IsI64(v + n)
    ensures var e := Entry(Str(DecInt(v)), deadline);
      var up := On(IncrBy(key, n), Some(e), now);
      && up == Outcome(Some(Entry(Str(DecInt(v + n)), deadline)), Integer(v + n))
      && On(DecrBy(key, n), up.entry, now) == Outcome(Some(e), Integer(v))
  {
    hide ParseI64, DecInt;
    ParseDecInt(v);
    ParseDecInt(v + n);
  }

  /** Appending in pieces is appending the whole. */
  lemma AppendsJoin(key: Bytes, a: Bytes, b: Bytes, cur: Option<Entry>, now: Millis)
    requires cur.Some? ==> cur.value.value.Str?
    requires BulkResponseFits((if cur.Some? then |cur.value.value.bytes| else 0) + |a + b|)
    ensures On(Append(key, b), On(Append(key, a), cur, now).entry, now) == On(Append(key, a + b), cur, now)
  {
    hide BulkResponseFits;
    var was := if cur.Some? then cur.value.value.bytes else [];
    BulkFitsMonotone(|was| + |a|, |was| + |a + b|);
    assert (was + a) + b == was + (a + b);
  }

  /** MSET: the last value given for a key is what GET reads. */
  lemma {:induction false} LastPairWins(m: Keyspace, pairs: seq<(Bytes, Bytes)>, i: nat)
    requires i < |pairs| && forall j :: i < j < |pairs| ==> pairs[j].0 != pairs[i].0
    ensures Lookup(SetAll(m, pairs), pairs[i].0) == Some(Entry(Str(pairs[i].1), None))
    decreases |pairs|
  {
    var next := m[pairs[0].0 := Entry(Str(pairs[0].1), None)];
    var rest := pairs[1..];
    if i > 0 {
      assert rest[i - 1] == pairs[i] && forall j :: i - 1 < j < |rest| ==> rest[j] == pairs[j + 1];
      LastPairWins(next, rest, i - 1);
    } else {
      forall j | 0 <= j < |rest|
        ensures rest[j].0 != pairs[0].0
      {
        assert rest[j] == pairs[j + 1];
      }
      assert pairs[0].0 !in Firsts(rest);
      Laws.SetAllKeys(next, rest);
    }
  }

  /** HSET: the last value given for a field is what HGET reads. */
  lemma {:induction false} LastFieldWins(fields: map<Bytes, Bytes>, pairs: seq<(Bytes, Bytes)>, i: nat)
    requires i < |pairs| && forall j :: i < j < |pairs| ==> pairs[j].0 != pairs[i].0
    ensures pairs[i].0 in WithFields(fields, pairs) && WithFields(fields, pairs)[pairs[i].0] == pairs[i].1
    decreases |pairs|
  {
    var next := fields[pairs[0].0 := pairs[0].1];
    var rest := pairs[1..];
    if i > 0 {
      assert rest[i - 1] == pairs[i] && forall j :: i - 1 < j < |rest| ==> rest[j] == pairs[j + 1];
      LastFieldWins(next, rest, i - 1);
    } else {
      forall j | 0 <= j < |rest|
        ensures rest[j].0 != pairs[0].0
      {
        assert rest[j] == pairs[j + 1];
      }
      OtherFieldsStay(next, rest, pairs[0].0);
    }
  }

  lemma {:induction false} OtherFieldsStay(fields: map<Bytes, Bytes>, pairs: seq<(Bytes, Bytes)>, f: Bytes)
    requires f in fields && forall j :: 0 <= j < |pairs| ==> pairs[j].0 != f
    ensures f in WithFields(fields, pairs) && WithFields(fields, pairs)[f] == fields[f]
    decreases |pairs|
  {
    if pairs != [] {
      assert forall j :: 0 <= j < |pairs[1..]| ==> pairs[1..][j] == pairs[j + 1];
      OtherFieldsStay(fields[pairs[0].0 := pairs[0].1], pairs[1..], f);
    }
  }
}
