/** Numbers in strings and in fields of hashes, and text that grows: what the replies to the counting commands say
    about what is read before and after (`src/cmd/string.rs`, `src/cmd/hash.rs`). */
module Counters {
  import opened Base
  import opened Frames
  import opened Commands
  import opened Semantics
  import opened Reading

  /** What was read, as text: "0" where there was nothing. */
  function TextOf(read: Frame): Bytes {
    if read.Bulk? then read.data else "0"
  }

  /** The reply to adding to what was read: the sum, or why there is none. */
  function Sum(read: Frame, delta: int, notANumber: Frame): Frame {
    if read == WRONG_TYPE then WRONG_TYPE
    else
      match ParseI64(TextOf(read))
      case None => notANumber
      case Some(v) => if IsI64(v + delta) then Integer(v + delta) else OVERFLOW
  }

  // ---- fields of hashes ----

  lemma AddToFieldIs(cur: Option<Entry>, field: Bytes, n: int)
    requires IsI64(n)
    ensures var o := AddToField(cur, field, n);
      && o.reply == Sum(FieldReply(cur, field), n, HASH_NOT_INT)
      && (o.reply.Integer? ==>
            var fields := if cur.Some? && cur.value.value.Hash? then cur.value.value.fields else map[];
            o.entry == Some(Entry(Hash(fields[field := DecInt(o.reply.n)]), if cur.Some? then cur.value.expiresAt else None)))
      && (!o.reply.Integer? ==> o.entry == cur)
  {
    hide DecInt, ParseI64;
    ParseZero();
    if cur.Some? && cur.value.value.Hash? && field in cur.value.value.fields {
      var fields := cur.value.value.fields;
      assert fields[field := fields[field]] == fields;
    }
  }

  /** HINCRBY replies with the number HGET read before (0 if there was none) plus the increment; from then on HGET
      reads that number, printed plainly, while every other field and the deadline are as they were. Otherwise it
      says why and changes nothing. */
  lemma FieldsAddUp(m: Keyspace, key: Bytes, field: Bytes, n: int, at: Millis, run: Run, now: Millis, other: Bytes)
    requires IsI64(n) && Undisturbed(run, key, at, now) && other != field
    ensures var r, after := Ask(m, HIncrBy(key, field, n), at), After(m, HIncrBy(key, field, n), at, run);
      && r == Sum(Ask(m, HGet(key, field), at), n, HASH_NOT_INT)
      && if !r.Integer? then Step(m, HIncrBy(key, field, n), at).db == Live(m, at)
         else if RanOut(m, key, at, now) then Ask(after, HGet(key, field), now) == Ask(after, HGet(key, other), now) == Null
         else
           && Ask(after, HGet(key, field), now) == Bulk(DecInt(r.n))
           && Ask(after, HGet(key, other), now) == Ask(m, HGet(key, other), at)
           && Ask(after, PTtl(key), now) == TimeLeft(m, key, at, now)
  {
    hide AddToField, DecInt, ParseI64, Step, After, Ask, Live;
    var c, cur := HIncrBy(key, field, n), At(m, key, at);
    var after := After(m, c, at, run);
    AddToFieldIs(cur, field, n);
    AskedIs(m, c, at);
    AfterIs(m, c, at, run, now);
    LiveAt(m, key, at, now);
    FieldIs(m, key, field, at);
    FieldIs(m, key, other, at);
    FieldIs(after, key, field, now);
    FieldIs(after, key, other, now);
    if Ask(m, c, at).Integer? && !RanOut(m, key, at, now) {
      TimeKept(m, after, key, at, now);
    }
  }

  /** HINCRBY by `n` and then by `-n` restores a field that held a number, printed plainly, and all else. */
  lemma FieldRestored(m: Keyspace, key: Bytes, field: Bytes, n: int, v: int, at: Millis)
    requires IsI64(n) && IsI64(-n) && IsI64(v) && IsI64(v + n) && Ask(m, HGet(key, field), at) == Bulk(DecInt(v))
    ensures Ask(m, HIncrBy(key, field, n), at) == Integer(v + n)
    ensures Step(Step(m, HIncrBy(key, field, n), at).db, HIncrBy(key, field, -n), at) == Executed(Live(m, at), Integer(v))
  {
    hide AddToField, DecInt, ParseI64, Live, Step;
    var cur := At(m, key, at);
    ParseDecInt(v);
    ParseDecInt(v + n);
    FieldIs(m, key, field, at);
    AskedIs(m, HIncrBy(key, field, n), at);
    AddToFieldIs(cur, field, n);
    AddToFieldIs(AddToField(cur, field, n).entry, field, -n);
    LiveAt(m, key, at, at);
    TwoInARow(m, HIncrBy(key, field, n), HIncrBy(key, field, -n), at);
    var fields := cur.value.value.fields;
    assert fields[field := DecInt(v + n)][field := DecInt(v)] == fields;
  }

  // ---- numbers in strings ----

  function Delta(c: Command): int
    requires Counts(c)
  {
    match c
    case Incr(_) => 1
    case Decr(_) => -1
    case IncrBy(_, n) => n
    case DecrBy(_, n) => -n
  }

  predicate Counts(c: Command) {
    c.Incr? || c.Decr? || ((c.IncrBy? || c.DecrBy?) && IsI64(c.n))
  }

  lemma AddToIs(cur: Option<Entry>, n: int)
    requires IsI64(n)
    ensures var o := AddTo(cur, n);
      && o.reply == Sum(GetReply(cur), n, NOT_INT)
      && (o.reply.Integer? ==>
            o.entry == Some(Entry(Str(DecInt(o.reply.n)), if cur.Some? then cur.value.expiresAt else None)))
      && (!o.reply.Integer? ==> o.entry == cur)
  {
    hide DecInt, ParseI64;
    ParseZero();
  }

  /** INCR, DECR, INCRBY and DECRBY reply with the number GET read before (0 if there was none) plus 1, minus 1, plus
      the number given or minus it; from then on GET reads that number, printed plainly, and the deadline is as it
      was. Otherwise they say why and change nothing. */
  lemma NumbersAddUp(m: Keyspace, c: Command, at: Millis, run: Run, now: Millis)
    requires Counts(c) && Undisturbed(run, c.key, at, now)
    ensures var r, after := Ask(m, c, at), After(m, c, at, run);
      && r == (if IsI64(Delta(c)) then Sum(Ask(m, Get(c.key), at), Delta(c), NOT_INT) else OVERFLOW)
      && if !r.Integer? then Step(m, c, at).db == Live(m, at)
         else if RanOut(m, c.key, at, now) then Ask(after, Get(c.key), now) == Null
         else
           && Ask(after, Get(c.key), now) == Bulk(DecInt(r.n))
           && Ask(after, PTtl(c.key), now) == TimeLeft(m, c.key, at, now)
  {
    hide AddTo, DecInt, ParseI64, Step, After, Ask, Live;
    var key, cur := c.key, At(m, c.key, at);
    var after := After(m, c, at, run);
    if IsI64(Delta(c)) {
      AddToIs(cur, Delta(c));
    }
    AskedIs(m, c, at);
    AfterIs(m, c, at, run, now);
    LiveAt(m, key, at, now);
    GetIs(m, key, at);
    GetIs(after, key, now);
    if Ask(m, c, at).Integer? && !RanOut(m, key, at, now) {
      TimeKept(m, after, key, at, now);
    }
  }

  /** Counting up and down again by the same restores a number that was printed plainly, and all else. */
  lemma NumberRestored(m: Keyspace, c: Command, back: Command, v: int, at: Millis)
    requires Counts(c) && Counts(back) && back.key == c.key && Delta(back) == -Delta(c)
    requires IsI64(Delta(c)) && IsI64(Delta(back)) && IsI64(v) && IsI64(v + Delta(c))
    requires Ask(m, Get(c.key), at) == Bulk(DecInt(v))
    ensures Ask(m, c, at) == Integer(v + Delta(c))
    ensures Step(Step(m, c, at).db, back, at) == Executed(Live(m, at), Integer(v))
  {
    hide AddTo, DecInt, ParseI64, Live, Step;
    var cur := At(m, c.key, at);
    ParseDecInt(v);
    ParseDecInt(v + Delta(c));
    GetIs(m, c.key, at);
    AskedIs(m, c, at);
    AddToIs(cur, Delta(c));
    AddToIs(AddTo(cur, Delta(c)).entry, Delta(back));
    LiveAt(m, c.key, at, at);
    TwoInARow(m, c, back, at);
  }

  // ---- text that grows ----

  /** APPEND replies with the length of what GET reads from then on: the text from before, then the suffix, with the
      deadline as it was; a text that would be too long for a reply is refused, though a missing key is then read as
      an empty text. */
  lemma AppendReadsBack(m: Keyspace, key: Bytes, suffix: Bytes, at: Millis, run: Run, now: Millis)
    requires Undisturbed(run, key, at, now) && Ask(m, Get(key), at) != WRONG_TYPE
    ensures var r, after := Ask(m, Append(key, suffix), at), After(m, Append(key, suffix), at, run);
      var was := Ask(m, Get(key), at);
      var text := (if was.Bulk? then was.data else []) + suffix;
      && r == (if |Encode(Bulk(text))| <= 64 * 1024 * 1024 then Integer(|text|) else TOO_LARGE)
      && if RanOut(m, key, at, now) then Ask(after, Get(key), now) == Null
         else
           && (r.Integer? ==> Ask(after, Get(key), now) == Bulk(text) && Ask(after, Strlen(key), now) == r)
           && (r.Integer? ==> Ask(after, PTtl(key), now) == TimeLeft(m, key, at, now))
           && (!r.Integer? ==> Ask(after, Get(key), now) == if was.Bulk? then was else Bulk([]))
  {
    hide DecInt, Step, After, Ask, Live;
    var cur := At(m, key, at);
    var after := After(m, Append(key, suffix), at, run);
    AskedIs(m, Append(key, suffix), at);
    AfterIs(m, Append(key, suffix), at, run, now);
    LiveAt(m, key, at, now);
    GetIs(m, key, at);
    GetIs(after, key, now);
    if Ask(m, Append(key, suffix), at).Integer? && !RanOut(m, key, at, now) {
      TimeKept(m, after, key, at, now);
    }
  }
}
