/** What a client sees of one key: the reply to a command, and what it finds there later on if nobody else
    touches the key. */
module Reading {
  import opened Base
  import opened Commands
  import opened Frames
  import opened Semantics
  import Queues

  /** The reply when the clock reads `now`. */
  ghost function Ask(m: Keyspace, c: Command, now: Millis): Frame {
    Step(m, c, now).reply
  }

  /** What is there at a key that has not expired. */
  function At(m: Keyspace, key: Bytes, now: Millis): Option<Entry> {
    Lookup(Live(m, now), key)
  }

  /** A command, and then others that leave its key alone. */
  ghost function After(m: Keyspace, c: Command, at: Millis, run: Run): Keyspace {
    RunDb(run, Step(m, c, at).db)
  }

  predicate Undisturbed(run: Run, key: Bytes, at: Millis, now: Millis) {
    Queues.LeavesKey(run, key) && Queues.InOrder(run, at, now)
  }

  /** The key was there, and its deadline passed since. */
  predicate RanOut(m: Keyspace, key: Bytes, at: Millis, now: Millis) {
    key in m && !Expired(m[key], at) && Expired(m[key], now)
  }

  lemma AskedIs(m: Keyspace, c: Command, now: Millis)
    requires Keyed(c)
    ensures Ask(m, c, now) == KeyExec(c, At(m, c.key, now), now).reply
    ensures Step(m, c, now).db == Put(Live(m, now), c.key, KeyExec(c, At(m, c.key, now), now).entry)
    ensures Lookup(Step(m, c, now).db, c.key) == KeyExec(c, At(m, c.key, now), now).entry
  {
    hide KeyExec, Live;
  }

  lemma AfterIs(m: Keyspace, c: Command, at: Millis, run: Run, now: Millis)
    requires Keyed(c) && Undisturbed(run, c.key, at, now)
    ensures At(After(m, c, at, run), c.key, now) == Fresh(KeyExec(c, At(m, c.key, at), at).entry, now)
  {
    hide KeyExec, Step, RunDb;
    AskedIs(m, c, at);
    Queues.EntryStays(Step(m, c, at).db, run, c.key, KeyExec(c, At(m, c.key, at), at).entry, at, now);
  }

  /** Putting back what is there changes nothing; a key runs out exactly if its deadline lies in between. */
  lemma LiveAt(m: Keyspace, key: Bytes, at: Millis, now: Millis)
    ensures Put(Live(m, at), key, At(m, key, at)) == Live(m, at)
    ensures RanOut(m, key, at, now) <==> At(m, key, at).Some? && Expired(At(m, key, at).value, now)
  {
  }

  lemma LaterAt(m: Keyspace, key: Bytes, at: Millis, now: Millis)
    requires at <= now && At(m, key, at).Some? && !RanOut(m, key, at, now)
    ensures At(m, key, now) == At(m, key, at)
  {
  }

  /** Two commands in a row on one key, at one reading of the clock. */
  lemma TwoInARow(m: Keyspace, c: Command, d: Command, at: Millis)
    requires Keyed(c) && Keyed(d) && d.key == c.key
    requires var e := KeyExec(c, At(m, c.key, at), at).entry; e.Some? ==> !Expired(e.value, at)
    ensures var o := KeyExec(d, KeyExec(c, At(m, c.key, at), at).entry, at);
      Step(Step(m, c, at).db, d, at) == Executed(Put(Live(m, at), c.key, o.entry), o.reply)
  {
    hide KeyExec, Step;
    var v, e := Live(m, at), KeyExec(c, At(m, c.key, at), at).entry;
    AskedIs(m, c, at);
    var mid := Put(v, c.key, e);
    assert Live(mid, at) == mid;
    AskedIs(mid, d, at);
    var f := KeyExec(d, e, at).entry;
    assert Put(mid, c.key, f) == Put(v, c.key, f);
  }

  /** A reply, refused if it is longer than 64 MiB. */
  function Limited(f: Frame): Frame {
    if |Encode(f)| <= 64 * 1024 * 1024 then f else TOO_LARGE
  }

  // ---- single readings ----

  lemma GetIs(m: Keyspace, key: Bytes, now: Millis)
    ensures Ask(m, Get(key), now) == GetReply(At(m, key, now))
    ensures Ask(m, Strlen(key), now) == StrlenReply(At(m, key, now))
  {
    hide Live;
  }

  lemma FieldIs(m: Keyspace, key: Bytes, field: Bytes, now: Millis)
    ensures Ask(m, HGet(key, field), now) == FieldReply(At(m, key, now), field)
  {
    hide Live;
  }

  lemma TimeIs(m: Keyspace, key: Bytes, now: Millis)
    ensures Ask(m, PTtl(key), now) == TtlReply(At(m, key, now), true, now)
    ensures Ask(m, Ttl(key), now) == TtlReply(At(m, key, now), false, now)
  {
    hide Live;
  }

  /** What PTTL reads later on if the deadline is left alone; a new key has none. */
  ghost function TimeLeft(m: Keyspace, key: Bytes, at: Millis, now: Millis): Frame {
    if Ask(m, PTtl(key), at) == Integer(-2) then Integer(-1) else Ask(m, PTtl(key), now)
  }

  lemma TimeKept(m: Keyspace, later: Keyspace, key: Bytes, at: Millis, now: Millis)
    requires at <= now && !RanOut(m, key, at, now) && At(later, key, now).Some?
    requires var cur := At(m, key, at); At(later, key, now).value.expiresAt == if cur.Some? then cur.value.expiresAt else None
    ensures Ask(later, PTtl(key), now) == TimeLeft(m, key, at, now)
  {
    hide Ask;
    TimeIs(m, key, at);
    TimeIs(m, key, now);
    TimeIs(later, key, now);
  }
}
