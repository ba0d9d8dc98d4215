/** What holds of every command: errors change nothing, only the named keys change, and moving the
    clock changes nothing as long as no deadline is crossed. */
module Laws {
  import opened Base
  import opened Limits
  import opened Frames
  import opened Commands
  import opened Semantics
  import Codec

  predicate NoneExpired(m: Keyspace, now: Millis) {
    forall k :: k in m ==> !Expired(m[k], now)
  }

  lemma LiveIsFresh(m: Keyspace, now: Millis)
    ensures NoneExpired(Live(m, now), now)
    ensures NoneExpired(m, now) ==> Live(m, now) == m
  {
  }

  /** Dropping what expired earlier first makes no difference. */
  lemma LiveLater(m: Keyspace, now: Millis, later: Millis)
    requires now <= later
    ensures Live(Live(m, now), later) == Live(m, later)
  {
  }

  lemma SameLookups(a: Keyspace, b: Keyspace)
    requires forall k :: Lookup(a, k) == Lookup(b, k)
    ensures a == b
  {
    forall k
      ensures k in a <==> k in b
      ensures k in a ==> a[k] == b[k]
    {
      assert Lookup(a, k) == Lookup(b, k);
    }
  }

  // ---- several keys ----

  lemma {:induction false} DelAllIs(m: Keyspace, keys: seq<Bytes>)
    ensures DelAll(m, keys) == m - (set k | k in keys)
    decreases |keys|
  {
    if keys == [] {
      assert m - {} == m;
    } else {
      DelAllIs(m - {keys[0]}, keys[1..]);
      assert forall k :: k in keys <==> k == keys[0] || k in keys[1..];
    }
  }

  lemma {:induction false} SetAllKeys(m: Keyspace, pairs: seq<(Bytes, Bytes)>)
    ensures SetAll(m, pairs).Keys == m.Keys + (set k | k in Firsts(pairs))
    ensures forall k :: k in m && k !in Firsts(pairs) ==> SetAll(m, pairs)[k] == m[k]
    ensures forall k :: k in SetAll(m, pairs) && k in Firsts(pairs) ==>
      exists i :: 0 <= i < |pairs| && pairs[i].0 == k && SetAll(m, pairs)[k] == Entry(Str(pairs[i].1), None)
    decreases |pairs|
  {
    if pairs != [] {
      var m1 := m[pairs[0].0 := Entry(Str(pairs[0].1), None)];
      SetAllKeys(m1, pairs[1..]);
      assert Firsts(pairs) == [pairs[0].0] + Firsts(pairs[1..]);
      forall k | k in SetAll(m, pairs) && k in Firsts(pairs)
        ensures exists i :: 0 <= i < |pairs| && pairs[i].0 == k && SetAll(m, pairs)[k] == Entry(Str(pairs[i].1), None)
      {
        if k in Firsts(pairs[1..]) {
          var i :| 0 <= i < |pairs[1..]| && pairs[1..][i].0 == k && SetAll(m, pairs)[k] == Entry(Str(pairs[1..][i].1), None);
          assert pairs[i + 1] == pairs[1..][i];
        } else {
          assert k == pairs[0].0 && SetAll(m, pairs)[k] == m1[k];
        }
      }
    }
  }

  // ---- only the named keys change ----

  ghost predicate SameOutside(a: Keyspace, b: Keyspace, keys: seq<Bytes>) {
    forall k :: k !in keys ==> Lookup(a, k) == Lookup(b, k)
  }

  lemma KeyReadsChangeNothing(c: Command, cur: Option<Entry>, now: Millis)
    requires Keyed(c) && !c.IsWrite()
    ensures KeyExec(c, cur, now).entry == cur
  {
  }

  /** A command changes no key outside `MutatedKeys`; a command that is not a write changes none. */
  lemma OnlyMutatedKeysChange(c: Command, m: Keyspace, now: Millis)
    ensures SameOutside(m, Exec(c, m, now).db, c.MutatedKeys())
    ensures !c.IsWrite() ==> Exec(c, m, now).db == m
  {
    hide KeyExec, Bounded;
    if c.Del? {
      DelAllIs(m, c.keys);
    } else if c.MSet? {
      SetAllKeys(m, c.pairs);
    } else if Keyed(c) {
      if !c.IsWrite() {
        KeyReadsChangeNothing(c, Lookup(m, c.key), now);
      } else {
        assert c.MutatedKeys() == [c.key];
      }
    }
  }

  // ---- the clock ----

  /** No deadline of the command falls between the two clock readings. */
  predicate CrossesNoDeadline(c: Command, now: Millis, later: Millis) {
    c.Deadline().Some? ==> c.Deadline().value <= now || c.Deadline().value > later
  }

  lemma KeyExecLater(c: Command, cur: Option<Entry>, now: Millis, later: Millis)
    requires Keyed(c) && c.IsWrite() && now <= later && CrossesNoDeadline(c, now, later)
    ensures KeyExec(c.Logged(), cur, later) == KeyExec(c, cur, now)
  {
    hide AddTo, AppendTo, PushTo, PopFrom, SetFields, DeleteFields, AddToField, BulkResponseFits;
  }

  lemma KeyExecFresh(c: Command, cur: Option<Entry>, now: Millis, later: Millis)
    requires Keyed(c) && c.IsWrite() && now <= later && CrossesNoDeadline(c, now, later)
    requires cur.Some? ==> !Expired(cur.value, later)
    ensures var e := KeyExec(c, cur, now).entry; e.Some? ==> !Expired(e.value, later)
  {
    hide ParseI64, Encode, Popped, Reverse, WithFields, RemovedFields, BulkResponseFits, Remaining, DecInt;
  }

  /** Running a write later, from a keyspace whose deadlines are later still, gives the same
      keyspace and reply, provided the write's own deadline is not crossed. */
  lemma ExecLater(c: Command, m: Keyspace, now: Millis, later: Millis)
    requires c.IsWrite() && now <= later && NoneExpired(m, later) && CrossesNoDeadline(c, now, later)
    ensures Step(m, c.Logged(), later) == Step(m, c, now)
    ensures NoneExpired(Step(m, c, now).db, later)
  {
    hide KeyExec, DelAll, SetAll, DelCount, PairsFit;
    assert Live(m, later) == m && Live(m, now) == m;
    if Keyed(c) {
      KeyExecLater(c, Lookup(m, c.key), now, later);
      KeyExecFresh(c, Lookup(m, c.key), now, later);
    } else if c.Del? {
      DelAllIs(m, c.keys);
    } else {
      SetAllKeys(m, c.pairs);
    }
  }

  /** Whatever write follows, both replayed at `later` give what is live then in memory. */
  ghost predicate ReplaysAlike(c: Command, now: Millis, later: Millis) {
    forall m, next: Command :: NoneExpired(m, later) && next.IsWrite() && CrossesNoDeadline(next, now, later) ==>
      Live(Step(Step(m, c, now).db, next, now).db, later) == Step(Step(m, c.Logged(), later).db, next.Logged(), later).db
  }

  /** A write that is not refused for its size can be replayed later, whatever write follows it, if and
      only if its deadline is not crossed; otherwise PERSIST right behind it is lost. */
  lemma ReplaysAlikeIff(c: Command, now: Millis, later: Millis)
    requires c.IsWrite() && now <= later && (c.Set? ==> BulkResponseFits(|c.value|))
    ensures ReplaysAlike(c, now, later) <==> CrossesNoDeadline(c, now, later)
  {
    hide Exec, BulkResponseFits;
    if CrossesNoDeadline(c, now, later) {
      forall m, next: Command | NoneExpired(m, later) && next.IsWrite() && CrossesNoDeadline(next, now, later)
        ensures Live(Step(Step(m, c, now).db, next, now).db, later) == Step(Step(m, c.Logged(), later).db, next.Logged(), later).db
      {
        ExecLater(c, m, now, later);
        ExecLater(next, Step(m, c, now).db, now, later);
        LiveIsFresh(Step(Step(m, c, now).db, next, now).db, later);
      }
    } else {
      var m := if c.Set? then map[] else map[c.key := Entry(Str(""), None)];
      PersistIsLost(c, m, now, later);
      assert NoneExpired(m, later) && Persist(c.key).IsWrite() && CrossesNoDeadline(Persist(c.key), now, later);
    }
  }

  lemma PersistIsLost(c: Command, m: Keyspace, now: Millis, later: Millis)
    requires c.Deadline().Some? && now < c.Deadline().value <= later && (c.Set? ==> BulkResponseFits(|c.value|))
    requires m == if c.Set? then map[] else map[c.key := Entry(Str(""), None)]
    ensures c.key in Live(Step(Step(m, c, now).db, Persist(c.key), now).db, later)
    ensures c.key !in Step(Step(m, c.Logged(), later).db, Persist(c.key).Logged(), later).db
  {
    hide *;
    PersistKeeps(c, m, now, later);
    PersistMisses(c, m, later);
  }

  lemma PersistKeeps(c: Command, m: Keyspace, now: Millis, later: Millis)
    requires c.Deadline().Some? && now < c.Deadline().value && (c.Set? ==> BulkResponseFits(|c.value|))
    requires m == if c.Set? then map[] else map[c.key := Entry(Str(""), None)]
    ensures c.key in Live(Step(Step(m, c, now).db, Persist(c.key), now).db, later)
  {
    hide BulkResponseFits;
    assert Live(m, now) == m;
  }

  lemma PersistMisses(c: Command, m: Keyspace, later: Millis)
    requires c.Deadline().Some? && c.Deadline().value <= later && (c.Set? ==> BulkResponseFits(|c.value|))
    requires m == if c.Set? then map[] else map[c.key := Entry(Str(""), None)]
    ensures c.key !in Step(Step(m, c.Logged(), later).db, Persist(c.key).Logged(), later).db
  {
    hide BulkResponseFits;
    assert Live(m, later) == m;
  }

  // ---- replaying a write later ----

  /** The deadline of what is stored lies between the two clock readings. */
  predicate Crossing(cur: Option<Entry>, at: Millis, later: Millis) {
    cur.Some? && cur.value.expiresAt.Some? && at < cur.value.expiresAt.value <= later
  }

  /** A write that leaves the same behind whether the key has expired or not: it overwrites or removes
      it, or takes elements away, or brings its deadline forward. */
  predicate Indifferent(c: Command, cur: Option<Entry>) {
    || c.Set? || c.LPop? || c.RPop? || c.HDel?
    || ((c.Expire? || c.PExpire? || c.PExpireAt?) && cur.Some? && cur.value.expiresAt.Some?
          && c.deadline <= cur.value.expiresAt.value)
  }

  /** The write finds at every replay up to `later` what it needs of what it found at `at`. */
  predicate Reaches(m: Keyspace, c: Command, at: Millis, later: Millis) {
    Keyed(c) && Crossing(Lookup(m, c.key), at, later) ==> Indifferent(c, Lookup(m, c.key))
  }

  /** Replaying the log form of a write at `t` on what is live then of the keyspace before it gives what
      is live then of the keyspace after it. */
  ghost predicate ReplaysTo(m: Keyspace, c: Command, at: Millis, t: Millis) {
    Live(Step(m, c, at).db, t) == Step(Live(m, t), c.Logged(), t).db
  }

  lemma {:induction false} SetAllLive(m: Keyspace, pairs: seq<(Bytes, Bytes)>, now: Millis)
    ensures Live(SetAll(m, pairs), now) == SetAll(Live(m, now), pairs)
    decreases |pairs|
  {
    if pairs != [] {
      var e := Entry(Str(pairs[0].1), None);
      assert Live(m[pairs[0].0 := e], now) == Live(m, now)[pairs[0].0 := e];
      SetAllLive(m[pairs[0].0 := e], pairs[1..], now);
    }
  }

  /** One key. */
  lemma KeyReplays(c: Command, cur: Option<Entry>, at: Millis, t: Millis)
    requires Keyed(c) && c.IsWrite() && at <= t && !KeyExec(c, Fresh(cur, at), at).reply.Error?
    ensures var o, p := KeyExec(c, Fresh(cur, at), at), KeyExec(c.Logged(), Fresh(cur, t), t);
      && (!Crossing(cur, at, t) ==> p.entry == Fresh(o.entry, t) && !p.reply.Error?)
      && (Crossing(cur, at, t) && Indifferent(c, cur) ==> p.entry == Fresh(o.entry, t) && !p.reply.Error?)
  {
    hide AddTo, AppendTo, PushTo, PopFrom, SetFields, DeleteFields, AddToField, BulkResponseFits, Crossing, Indifferent;
    if Crossing(cur, at, t) {
      if Indifferent(c, cur) {
        IndifferentReplays(c, cur, at, t);
      }
    } else {
      UncrossedReplays(c, cur, at, t);
    }
  }

  lemma IndifferentReplays(c: Command, cur: Option<Entry>, at: Millis, t: Millis)
    requires Keyed(c) && c.IsWrite() && at <= t && !KeyExec(c, Fresh(cur, at), at).reply.Error?
    requires Crossing(cur, at, t) && Indifferent(c, cur)
    ensures var o, p := KeyExec(c, Fresh(cur, at), at), KeyExec(c.Logged(), Fresh(cur, t), t);
      p.entry == Fresh(o.entry, t) && !p.reply.Error?
  {
    hide Encode, Popped, Remaining, RemovedFields, BulkResponseFits, BulkArray;
  }

  lemma UncrossedReplays(c: Command, cur: Option<Entry>, at: Millis, t: Millis)
    requires Keyed(c) && c.IsWrite() && at <= t && !KeyExec(c, Fresh(cur, at), at).reply.Error?
    requires !Crossing(cur, at, t)
    ensures var o, p := KeyExec(c, Fresh(cur, at), at), KeyExec(c.Logged(), Fresh(cur, t), t);
      p.entry == Fresh(o.entry, t) && !p.reply.Error?
  {
    hide Encode, BulkResponseFits;
    assert Fresh(cur, at) == Fresh(cur, t);
    if c.Deadline().None? {
      KeyExecLater(c, Fresh(cur, at), at, t);
      KeyExecFresh(c, Fresh(cur, at), at, t);
    }
  }

  /** Where the key expired in between, any other write leaves different things behind. */
  lemma OthersDiffer(c: Command, cur: Option<Entry>, at: Millis, t: Millis)
    requires Keyed(c) && c.IsWrite() && at <= t && !KeyExec(c, Fresh(cur, at), at).reply.Error?
    requires Crossing(cur, at, t) && !Indifferent(c, cur) && (c.Deadline().Some? ==> t < c.Deadline().value)
    ensures KeyExec(c.Logged(), Fresh(cur, t), t).entry != Fresh(KeyExec(c, Fresh(cur, at), at).entry, t)
  {
    hide Encode, WithFields, AddedFields, Reverse, DecInt;
    ParseZero();
    if c.Append? {
      BulkFitsMonotone(|c.value|, |cur.value.value.bytes| + |c.value|);
    }
  }

  lemma KeyedReplaysTo(m: Keyspace, c: Command, at: Millis, t: Millis)
    requires Keyed(c) && c.IsWrite() && at <= t
    ensures var o, p := KeyExec(c, Fresh(Lookup(m, c.key), at), at), KeyExec(c.Logged(), Fresh(Lookup(m, c.key), t), t);
      && (ReplaysTo(m, c, at, t) <==> p.entry == Fresh(o.entry, t))
      && Step(m, c, at).reply == o.reply && Step(Live(m, t), c.Logged(), t).reply == p.reply
  {
    hide KeyExec;
    var o, p := KeyExec(c, Fresh(Lookup(m, c.key), at), at), KeyExec(c.Logged(), Fresh(Lookup(m, c.key), t), t);
    assert Lookup(Live(m, at), c.key) == Fresh(Lookup(m, c.key), at);
    assert Live(Put(Live(m, at), c.key, o.entry), t) == Put(Live(m, t), c.key, Fresh(o.entry, t));
    assert Lookup(Live(m, t), c.key) == Fresh(Lookup(m, c.key), t);
    LiveLater(m, t, t);
    assert Lookup(Put(Live(m, t), c.key, p.entry), c.key) == p.entry;
    assert Lookup(Put(Live(m, t), c.key, Fresh(o.entry, t)), c.key) == Fresh(o.entry, t);
  }

  lemma UnkeyedReplaysTo(m: Keyspace, c: Command, at: Millis, t: Millis)
    requires !Keyed(c) && c.IsWrite() && at <= t && !Step(m, c, at).reply.Error?
    ensures ReplaysTo(m, c, at, t) && !Step(Live(m, t), c.Logged(), t).reply.Error?
  {
    hide DelAll, SetAll, DelCount, PairsFit;
    LiveIsFresh(m, t);
    LiveIsFresh(Live(m, t), t);
    LiveLater(m, at, t);
    if c.Del? {
      DelAllIs(Live(m, at), c.keys);
      DelAllIs(Live(m, t), c.keys);
      assert Live(Live(m, at) - (set k | k in c.keys), t) == Live(m, t) - (set k | k in c.keys);
    } else {
      SetAllLive(Live(m, at), c.pairs, t);
    }
  }

  /** A successful write whose key does not expire under it replays at every later reading. */
  lemma WriteReplays(m: Keyspace, c: Command, at: Millis, t: Millis, later: Millis)
    requires c.IsWrite() && at <= t <= later && !Step(m, c, at).reply.Error? && Reaches(m, c, at, later)
    ensures ReplaysTo(m, c, at, t) && !Step(Live(m, t), c.Logged(), t).reply.Error?
  {
    hide Step, KeyExec, Indifferent;
    if Keyed(c) {
      KeyedReplaysTo(m, c, at, t);
      KeyReplays(c, Lookup(m, c.key), at, t);
    } else {
      UnkeyedReplaysTo(m, c, at, t);
    }
  }

  /** A successful write can be replayed at every reading up to `later` if and only if no key it needs
      expires in between: its key holds no deadline that is crossed, or the write does not mind. */
  lemma WriteReplaysIff(m: Keyspace, c: Command, at: Millis, later: Millis)
    requires c.IsWrite() && at <= later && !Step(m, c, at).reply.Error?
    ensures (forall t :: at <= t <= later ==> ReplaysTo(m, c, at, t)) <==> Reaches(m, c, at, later)
  {
    hide Step, KeyExec, ReplaysTo;
    if Reaches(m, c, at, later) {
      forall t | at <= t <= later
        ensures ReplaysTo(m, c, at, t)
      {
        WriteReplays(m, c, at, t, later);
      }
    } else {
      var cur := Lookup(m, c.key);
      var t := cur.value.expiresAt.value;
      KeyedReplaysTo(m, c, at, t);
      OthersDiffer(c, cur, at, t);
      assert !ReplaysTo(m, c, at, t);
    }
  }

  lemma ReachesSame(a: Keyspace, b: Keyspace, c: Command, at: Millis, later: Millis)
    requires Live(a, at) == Live(b, at) && Reaches(a, c, at, later)
    ensures Reaches(b, c, at, later)
  {
    if Keyed(c) && Crossing(Lookup(b, c.key), at, later) {
      assert c.key in Live(b, at) && Live(b, at)[c.key] == Live(a, at)[c.key];
    }
  }

  /** Crossing a deadline does change the outcome: `SET k 5 PXAT d; INCR k` at `now`, replayed at
      `later`, differ for every `d` in between. */
  lemma CrossingADeadlineMatters(k: Bytes, d: Millis, now: Millis, later: Millis)
    requires now < d <= later
    ensures var set5, incr := Set(k, "5", Some(d)), Incr(k);
      && Step(Step(map[], set5, now).db, incr, now).db == map[k := Entry(Str("6"), Some(d))]
      && Step(Step(map[], set5, later).db, incr, later).db == map[k := Entry(Str("1"), None)]
  {
    assert ParseI64("5") == Some(5) && ParseI64("0") == Some(0) && DecInt(6) == "6" && DecInt(1) == "1" by {
      ParseDecInt(5);
      ParseDecInt(0);
    }
    assert BulkLen(1) == 7;
    assert Step(map[], Set(k, "5", Some(d)), now).db == map[k := Entry(Str("5"), Some(d))];
    assert Step(map[], Set(k, "5", Some(d)), later).db == map[];
  }

  // ---- command after command ----

  lemma {:induction false} RunDbAppend(a: Run, b: Run, m: Keyspace)
    ensures RunDb(a + b, m) == RunDb(b, RunDb(a, m))
    decreases |a|
  {
    hide Step;
    if a == [] {
      assert a + b == b;
    } else {
      assert (a + b)[0] == a[0] && (a + b)[1..] == a[1..] + b;
      RunDbAppend(a[1..], b, Step(m, a[0].0, a[0].1).db);
    }
  }

  lemma RunDbSnoc(run: Run, c: Command, at: Millis, m: Keyspace)
    ensures RunDb(run + [(c, at)], m) == Step(RunDb(run, m), c, at).db
  {
    hide Step;
    RunDbAppend(run, [(c, at)], m);
    assert [(c, at)][1..] == [];
  }

  // ---- errors ----

  /** APPEND to a missing key of a suffix that fits no reply: the empty entry stays behind. */
  predicate LeavesEmptyString(c: Command, m: Keyspace) {
    c.Append? && c.key !in m && !BulkResponseFits(|c.value|)
  }

  lemma KeyErrors(c: Command, cur: Option<Entry>, now: Millis)
    requires Keyed(c) && Codec.Decodable(c, now) && KeyExec(c, cur, now).reply.Error?
    ensures KeyExec(c, cur, now).entry == cur <==> !(c.Append? && cur.None? && !BulkResponseFits(|c.value|))
  {
    hide Encode, Popped, Reverse, WithFields, RemovedFields, Remaining, DecInt, Slice, SomeOrder, RespBulkLen;
    ParseZero();
    if c.HIncrBy? && cur.Some? && cur.value.value.Hash? && c.field in cur.value.value.fields {
      var fields := cur.value.value.fields;
      assert fields[c.field := fields[c.field]] == fields;
    }
  }

  /** A decoded command that replies with an error leaves the keyspace as it was, except exactly the
      oversized APPEND to a missing key. */
  lemma ErrorsChangeNothing(c: Command, m: Keyspace, now: Millis)
    requires Codec.Decodable(c, now) && Exec(c, m, now).reply.Error?
    ensures Exec(c, m, now).db == m <==> !LeavesEmptyString(c, m)
  {
    hide KeyExec, BulkResponseFits;
    if Keyed(c) {
      KeyErrors(c, Lookup(m, c.key), now);
      var e := KeyExec(c, Lookup(m, c.key), now).entry;
      assert Lookup(Put(m, c.key, e), c.key) == e;
      if e == Lookup(m, c.key) {
        assert Put(m, c.key, e) == m;
      }
    }
  }
}
