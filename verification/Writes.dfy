/** Which commands are writes, to be logged and to wait at the gate (`Command::is_write` in `src/cmd/mod.rs`). */
module Writes {
  import opened Base
  import opened Commands
  import opened Frames
  import opened Semantics
  import opened Reading
  import Decoding
  import Laws
  import Limits

  /** Some command of this name changes some keyspace, apart from what has expired. */
  ghost predicate CanChange(verb: Verb) {
    exists c: Command, m: Keyspace, now: Millis :: Changes(c, m, now) && Decoding.VerbFor(c) == verb
  }

  ghost predicate Changes(c: Command, m: Keyspace, now: Millis) {
    Step(m, c, now).db != Live(m, now)
  }

  lemma Witness(c: Command, m: Keyspace)
    requires Keyed(c) && KeyExec(c, At(m, c.key, 0), 0).entry != At(m, c.key, 0)
    ensures CanChange(Decoding.VerbFor(c))
  {
    hide KeyExec, Step, Live, Decoding.VerbFor;
    AskedIs(m, c, 0);
    assert Changes(c, m, 0);
  }

  const ONE: Entry := Entry(Str("1"), None)

  lemma StringWitness(c: Command)
    requires c.Set? || c.Incr? || c.Decr? || c.IncrBy? || c.DecrBy? || c.Append?
    ensures CanChange(Decoding.VerbFor(c))
  {
    hide CanChange, ParseI64, DecInt;
    ParseZero();
    var empty: Keyspace := map[];
    match c
    case Set(_, _, _) => Witness(Set("", "", None), empty);
    case Incr(_) => Witness(Incr(""), empty);
    case Decr(_) => Witness(Decr(""), empty);
    case IncrBy(_, _) => Witness(IncrBy("", 1), empty);
    case DecrBy(_, _) => Witness(DecrBy("", 1), empty);
    case Append(_, _) => Witness(Append("", ""), empty);
  }

  lemma DeadlineWitness(c: Command)
    requires c.Expire? || c.PExpire? || c.PExpireAt? || c.Persist?
    ensures CanChange(Decoding.VerbFor(c))
  {
    hide CanChange;
    var m, timed: Keyspace := map["" := ONE], map["" := Entry(Str(""), Some(1))];
    match c
    case Expire(_, _) => Witness(Expire("", 1), m);
    case PExpire(_, _) => Witness(PExpire("", 1), m);
    case PExpireAt(_, _) => Witness(PExpireAt("", 1), m);
    case Persist(_) => Witness(Persist(""), timed);
  }

  lemma ListWitness(c: Command)
    requires c.LPush? || c.RPush? || c.LPop? || c.RPop?
    ensures CanChange(Decoding.VerbFor(c))
  {
    hide CanChange, Reverse, Encode, Popped;
    var empty, listed: Keyspace := map[], map["" := Entry(List([""]), None)];
    match c
    case LPush(_, _) => Witness(LPush("", [""]), empty);
    case RPush(_, _) => Witness(RPush("", [""]), empty);
    case LPop(_, _) => Witness(LPop("", None), listed);
    case RPop(_, _) => Witness(RPop("", None), listed);
  }

  lemma HashWitness(c: Command)
    requires c.HSet? || c.HDel? || c.HIncrBy?
    ensures CanChange(Decoding.VerbFor(c))
  {
    hide CanChange, ParseI64, DecInt, WithFields, AddedFields, RemovedFields;
    ParseZero();
    var empty, hashed: Keyspace := map[], map["" := Entry(Hash(map["" := ""]), None)];
    match c
    case HSet(_, _) => Witness(HSet("", [("", "")]), empty);
    case HDel(_, _) =>
      assert map["" := ""] - (set n: Bytes | n in [""]) == map[];
      Witness(HDel("", [""]), hashed);
    case HIncrBy(_, _, _) => Witness(HIncrBy("", "", 1), empty);
  }

  lemma DelWitness(c: Command)
    requires c.Del?
    ensures CanChange(Decoding.VerbFor(c))
  {
    hide DelCount, DelAll;
    var m: Keyspace, keys: seq<Bytes> := map["" := ONE], [""];
    Laws.DelAllIs(Live(m, 0), keys);
    assert "" in Live(m, 0) && keys[0] in keys;
    assert "" !in Step(m, Del(keys), 0).db;
    assert Changes(Del(keys), m, 0);
  }

  lemma EmptyFits()
    ensures Limits.BulkResponseFits(0)
  {
    assert Limits.BulkLen(0) == 6;
  }

  lemma MSetStep(m: Keyspace, now: Millis)
    ensures Step(m, MSet([("", "")]), now).db == SetAll(Live(m, now), [("", "")])
  {
    hide SetAll, Limits.BulkResponseFits, Live;
    EmptyFits();
  }

  lemma MSetWitness(c: Command)
    requires c.MSet?
    ensures CanChange(Decoding.VerbFor(c))
  {
    hide SetAll, Step;
    var m: Keyspace, pairs: seq<(Bytes, Bytes)> := map[], [("", "")];
    MSetStep(m, 0);
    Laws.SetAllKeys(Live(m, 0), pairs);
    assert Firsts(pairs)[0] == "";
    assert "" in Step(m, MSet(pairs), 0).db && "" !in Live(m, 0);
    assert Changes(MSet(pairs), m, 0);
  }

  predicate WriteVerb(verb: Verb) {
    verb in {SET, DEL, INCR, DECR, INCRBY, DECRBY, APPEND, MSET, EXPIRE, PEXPIRE, PEXPIREAT, PERSIST, LPUSH, RPUSH,
             LPOP, RPOP, HSET, HDEL, HINCRBY}
  }

  lemma WriteVerbs(c: Command)
    ensures c.IsWrite() <==> WriteVerb(Decoding.VerbFor(c))
  {
  }

  lemma ReadsChangeNothing(c: Command, m: Keyspace, now: Millis)
    requires !c.IsWrite()
    ensures !Changes(c, m, now)
  {
    hide Exec, Live;
    Laws.OnlyMutatedKeysChange(c, Live(m, now), now);
  }

  lemma CannotChange(c: Command)
    requires !c.IsWrite()
    ensures !CanChange(Decoding.VerbFor(c))
  {
    hide Changes, Decoding.VerbFor, Command.IsWrite;
    if CanChange(Decoding.VerbFor(c)) {
      var d: Command, m: Keyspace, now: Millis :| Changes(d, m, now) && Decoding.VerbFor(d) == Decoding.VerbFor(c);
      WriteVerbs(c);
      WriteVerbs(d);
      ReadsChangeNothing(d, m, now);
    }
  }

  /** The writes are exactly the commands by whose name a keyspace can be changed: no read is logged, and nothing that
      can change a key goes unlogged. */
  lemma WritesIffCanChange(c: Command)
    ensures c.IsWrite() <==> CanChange(Decoding.VerbFor(c))
  {
    hide CanChange, Decoding.VerbFor;
    match c
    case Set(_, _, _) | Incr(_) | Decr(_) | IncrBy(_, _) | DecrBy(_, _) | Append(_, _) => StringWitness(c);
    case Expire(_, _) | PExpire(_, _) | PExpireAt(_, _) | Persist(_) => DeadlineWitness(c);
    case LPush(_, _) | RPush(_, _) | LPop(_, _) | RPop(_, _) => ListWitness(c);
    case HSet(_, _) | HDel(_, _) | HIncrBy(_, _, _) => HashWitness(c);
    case Del(_) => DelWitness(c);
    case MSet(_) => MSetWitness(c);
    case _ => CannotChange(c);
  }
}
