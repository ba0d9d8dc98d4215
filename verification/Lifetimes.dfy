/** Deadlines as the clients see them, and commands on values of the wrong type (`src/cmd`). */
module Lifetimes {
  import opened Base
  import opened Frames
  import opened Commands
  import opened Semantics
  import opened Reading
  import Limits

  // ---- time left ----

  /** TTL counts whole seconds and PTTL milliseconds, both at most the largest i64. */
  lemma SecondsAndMillis(m: Keyspace, key: Bytes, now: Millis)
    ensures var e, ttl, pttl := At(m, key, now), Ask(m, Ttl(key), now), Ask(m, PTtl(key), now);
      if e.None? then ttl == pttl == Integer(-2)
      else if e.value.expiresAt.None? then ttl == pttl == Integer(-1)
      else
        var left := e.value.expiresAt.value - now;
        && left > 0 && ttl.Integer? && pttl == Integer(Min(left, I64_MAX))
        && if left < 1000 * (I64_MAX + 1) then 1000 * ttl.n <= left < 1000 * (ttl.n + 1) else ttl.n == I64_MAX
  {
    hide Ask;
    TimeIs(m, key, now);
  }

  predicate SetsDeadline(c: Command) {
    c.Expire? || c.PExpire? || c.PExpireAt?
  }

  /** Where PTTL reads that nothing is there, EXPIRE and its kin reply 0 and change nothing. Elsewhere they reply 1,
      and from then on the value is there as it was, with the new deadline, until the clock reaches it. */
  lemma ExpireReadsBack(m: Keyspace, c: Command, at: Millis, run: Run, now: Millis)
    requires SetsDeadline(c) && Undisturbed(run, c.key, at, now)
    ensures var cur, after := At(m, c.key, at), At(After(m, c, at, run), c.key, now);
      if Ask(m, PTtl(c.key), at) == Integer(-2) then Step(m, c, at) == Executed(Live(m, at), Integer(0))
      else
        && Ask(m, c, at) == Integer(1) && cur.Some?
        && after == (if c.deadline <= now then None else Some(Entry(cur.value.value, Some(c.deadline))))
        && Ask(After(m, c, at, run), PTtl(c.key), now)
           == Integer(if c.deadline <= now then -2 else Min(c.deadline - now, I64_MAX))
  {
    hide Ask, Live, After;
    TimeIs(m, c.key, at);
    LiveAt(m, c.key, at, at);
    AskedIs(m, c, at);
    AfterIs(m, c, at, run, now);
    TimeIs(After(m, c, at, run), c.key, now);
  }

  /** PERSIST replies 1 exactly where PTTL reads a time left; from then on the value is there as it was, without a
      deadline. Elsewhere it changes nothing. */
  lemma PersistReadsBack(m: Keyspace, key: Bytes, at: Millis, run: Run, now: Millis)
    requires Undisturbed(run, key, at, now)
    ensures var cur, after := At(m, key, at), At(After(m, Persist(key), at, run), key, now);
      if Ask(m, PTtl(key), at) in {Integer(-2), Integer(-1)} then Step(m, Persist(key), at) == Executed(Live(m, at), Integer(0))
      else
        && Ask(m, Persist(key), at) == Integer(1) && cur.Some?
        && after == Some(Entry(cur.value.value, None))
        && Ask(After(m, Persist(key), at, run), PTtl(key), now) == Integer(-1)
  {
    hide Ask, Live, After;
    TimeIs(m, key, at);
    LiveAt(m, key, at, at);
    AskedIs(m, Persist(key), at);
    AfterIs(m, Persist(key), at, run, now);
    TimeIs(After(m, Persist(key), at, run), key, now);
  }

  // ---- values of the wrong type ----

  predicate OnStrings(c: Command) {
    c.Get? || c.Incr? || c.Decr? || c.IncrBy? || c.DecrBy? || c.Append? || c.Strlen?
  }

  predicate OnLists(c: Command) {
    c.LPush? || c.RPush? || c.LPop? || c.RPop? || c.LRange? || c.LLen? || c.LIndex?
  }

  predicate OnHashes(c: Command) {
    c.HSet? || c.HGet? || c.HDel? || c.HKeys? || c.HVals? || c.HGetAll? || c.HExists? || c.HLen? || c.HIncrBy?
  }

  predicate Suits(c: Command, v: Value) {
    (OnStrings(c) ==> v.Str?) && (OnLists(c) ==> v.List?) && (OnHashes(c) ==> v.Hash?)
  }

  /** The refusals of the other kinds read otherwise. */
  lemma OtherErrors()
    ensures WRONG_TYPE !in {TOO_LARGE, NOT_INT, HASH_NOT_INT, OVERFLOW, OK}
  {
    assert |WRONG_TYPE.message| == 65 && |TOO_LARGE.message| == 51 && |NOT_INT.message| == 43;
    assert |HASH_NOT_INT.message| == 32 && |OVERFLOW.message| == 41;
  }

  predicate Refuses(o: Outcome, cur: Option<Entry>, suits: bool) {
    (o.reply == WRONG_TYPE <==> cur.Some? && !suits) && (o.reply == WRONG_TYPE ==> o.entry == cur)
  }

  lemma StringsRefuse(c: Command, cur: Option<Entry>, now: Millis)
    requires OnStrings(c) && (c.DecrBy? ==> IsI64(-c.n))
    ensures Refuses(KeyExec(c, cur, now), cur, cur.Some? && cur.value.value.Str?)
  {
    hide ParseI64, DecInt, Limits.BulkResponseFits, Encode;
    OtherErrors();
  }

  lemma ListsRefuse(c: Command, cur: Option<Entry>, now: Millis)
    requires OnLists(c)
    ensures Refuses(KeyExec(c, cur, now), cur, cur.Some? && cur.value.value.List?)
  {
    hide Reverse, Encode, Popped, Remaining, Slice, ResolveIndex;
    OtherErrors();
  }

  lemma HashesRefuse(c: Command, cur: Option<Entry>, now: Millis)
    requires OnHashes(c)
    ensures Refuses(KeyExec(c, cur, now), cur, cur.Some? && cur.value.value.Hash?)
  {
    hide ParseI64, DecInt, Encode, WithFields, AddedFields, RemovedFields, SomeOrder, Interleave, ValuesIn;
    OtherErrors();
  }

  lemma OthersAccept(c: Command, cur: Option<Entry>, now: Millis)
    requires Keyed(c) && !OnStrings(c) && !OnLists(c) && !OnHashes(c)
    ensures KeyExec(c, cur, now).reply != WRONG_TYPE
  {
    hide Limits.BulkResponseFits;
    OtherErrors();
  }

  /** A command is refused for the type of the value exactly where a value of another type is than the one it works
      on (a DECRBY that cannot be negated is refused before that), and then changes nothing. */
  lemma WrongTypeIff(m: Keyspace, c: Command, now: Millis)
    requires Keyed(c) && (c.DecrBy? ==> IsI64(-c.n))
    ensures var cur := At(m, c.key, now);
      && (Ask(m, c, now) == WRONG_TYPE <==> cur.Some? && !Suits(c, cur.value.value))
      && (Ask(m, c, now) == WRONG_TYPE ==> Step(m, c, now).db == Live(m, now))
  {
    hide KeyExec, Live, Ask, Step, Put, Lookup;
    var cur := At(m, c.key, now);
    AskedIs(m, c, now);
    LiveAt(m, c.key, now, now);
    if OnStrings(c) {
      StringsRefuse(c, cur, now);
    } else if OnLists(c) {
      ListsRefuse(c, cur, now);
    } else if OnHashes(c) {
      HashesRefuse(c, cur, now);
    } else {
      OthersAccept(c, cur, now);
    }
  }
}
