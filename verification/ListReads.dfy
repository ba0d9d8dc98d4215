/** What the replies to LRANGE, LINDEX, LLEN and the pops say about the elements of a list, in the order in which
    pushes put them there (`src/cmd/list.rs`). */
module ListReads {
  import opened Base
  import opened Frames
  import opened Commands
  import opened Semantics
  import opened Reading
  import Queues

  /** The key holds this list. */
  predicate HoldsList(m: Keyspace, key: Bytes, items: seq<Bytes>, now: Millis) {
    At(m, key, now).Some? && At(m, key, now).value.value == List(items)
  }

  /** A position as it is given: below zero it counts from the end. */
  function FromTheEnd(p: int, len: nat): int {
    if p < 0 then p + len else p
  }

  /** The elements from position `p` on that lie between the two positions. */
  function Between(items: seq<Bytes>, lo: int, hi: int, p: nat): seq<Bytes>
    requires p <= |items|
    decreases |items| - p
  {
    if p == |items| then [] else (if lo <= p <= hi then [items[p]] else []) + Between(items, lo, hi, p + 1)
  }

  lemma {:induction false} BetweenIs(items: seq<Bytes>, lo: int, hi: int, p: nat)
    requires p <= |items|
    ensures var from, to := if lo < p then p else lo, Min(hi, |items| - 1);
      Between(items, lo, hi, p) == if from <= to then items[from..to + 1] else []
    decreases |items| - p
  {
    if p < |items| {
      BetweenIs(items, lo, hi, p + 1);
    }
  }

  lemma SliceIsBetween(items: seq<Bytes>, start: int, stop: int)
    ensures Slice(items, start, stop)
         == Between(items, FromTheEnd(start, |items|), FromTheEnd(stop, |items|), 0)
  {
    BetweenIs(items, FromTheEnd(start, |items|), FromTheEnd(stop, |items|), 0);
  }

  lemma ListReplies(m: Keyspace, key: Bytes, i: int, j: int, now: Millis)
    ensures Ask(m, LRange(key, i, j), now) == RangeReply(At(m, key, now), i, j)
    ensures Ask(m, LIndex(key, i), now) == IndexReply(At(m, key, now), i)
    ensures Ask(m, LLen(key), now) == LenReply(At(m, key, now))
  {
    hide Live, RangeReply, IndexReply, LenReply;
  }

  /** LRANGE replies with the elements at the positions between `start` and `stop`, each once and in order, where
      a position below zero counts from the end, or refuses a reply of more than 64 MiB. */
  lemma RangeReadsPositions(m: Keyspace, key: Bytes, items: seq<Bytes>, start: int, stop: int, now: Millis)
    requires HoldsList(m, key, items, now)
    ensures Ask(m, LRange(key, start, stop), now)
         == Limited(BulkArray(Between(items, FromTheEnd(start, |items|), FromTheEnd(stop, |items|), 0)))
  {
    hide Encode, BulkArray, Slice, Between, Live, Ask;
    ListReplies(m, key, start, stop, now);
    SliceIsBetween(items, start, stop);
  }

  /** The last `n` elements are those from `-n` to `-1`. */
  lemma LastElements(m: Keyspace, key: Bytes, items: seq<Bytes>, n: int, now: Millis)
    requires HoldsList(m, key, items, now) && 0 < n <= |items|
    ensures Ask(m, LRange(key, -n, -1), now) == Limited(BulkArray(items[|items| - n..]))
  {
    hide Encode, BulkArray, Between, Ask;
    RangeReadsPositions(m, key, items, -n, -1, now);
    BetweenIs(items, |items| - n, |items| - 1, 0);
    assert items[|items| - n..|items|] == items[|items| - n..];
  }

  /** LINDEX reads the element at a position, counted from the front or from behind, and nothing elsewhere;
      LLEN counts the elements. */
  lemma IndexReadsPosition(m: Keyspace, key: Bytes, items: seq<Bytes>, i: int, now: Millis)
    requires HoldsList(m, key, items, now)
    ensures 0 <= i < |items| ==>
      Ask(m, LIndex(key, i), now) == Ask(m, LIndex(key, i - |items|), now) == Bulk(items[i])
    ensures i < -|items| || |items| <= i ==> Ask(m, LIndex(key, i), now) == Null
    ensures Ask(m, LLen(key), now) == Integer(|items|)
  {
    hide Ask, Live;
    ListReplies(m, key, i, 0, now);
    ListReplies(m, key, i - |items|, 0, now);
  }

  /** Without a list there is nothing to read; other values are refused. */
  lemma NoListReads(m: Keyspace, key: Bytes, start: int, stop: int, now: Millis)
    requires At(m, key, now).Some? ==> !At(m, key, now).value.value.List?
    ensures var some := At(m, key, now).Some?;
      && Ask(m, LRange(key, start, stop), now) == (if some then WRONG_TYPE else Array([]))
      && Ask(m, LIndex(key, start), now) == (if some then WRONG_TYPE else Null)
      && Ask(m, LLen(key), now) == (if some then WRONG_TYPE else Integer(0))
  {
    hide Ask, Live;
    ListReplies(m, key, start, stop, now);
  }

  // ---- what pushes leave ----

  function Joined(items: seq<Bytes>, values: seq<Bytes>, left: bool): (all: seq<Bytes>)
    ensures |all| == |items| + |values|
  {
    if left then Reverse(values) + items else items + values
  }

  lemma PushToSome(e: Entry, values: seq<Bytes>, left: bool)
    requires e.value.List?
    ensures PushTo(Some(e), values, left)
         == Outcome(Some(e.(value := List(Joined(e.value.items, values, left)))), Integer(|e.value.items| + |values|))
  {
    hide Reverse;
    if left {
      assert |Reverse(values) + e.value.items| == |e.value.items| + |values|;
    }
  }

  lemma PushToNone(values: seq<Bytes>, left: bool)
    ensures PushTo(None, values, left) == PushTo(Some(Entry(List([]), None)), values, left)
  {
    hide Reverse;
  }

  lemma PushToIs(cur: Option<Entry>, items: seq<Bytes>, values: seq<Bytes>, left: bool)
    requires if cur.None? then items == [] else cur.value.value == List(items)
    ensures PushTo(cur, values, left)
         == Outcome(Some(Entry(List(Joined(items, values, left)), if cur.Some? then cur.value.expiresAt else None)),
                    Integer(|items| + |values|))
  {
    hide PushTo, Joined;
    PushToNone(values, left);
    PushToSome(if cur.Some? then cur.value else Entry(List(items), None), values, left);
  }

  lemma PushIs(m: Keyspace, push: Command, at: Millis)
    requires push.LPush? || push.RPush?
    ensures KeyExec(push, At(m, push.key, at), at) == PushTo(At(m, push.key, at), push.values, push.LPush?)
  {
    hide PushTo, Live;
  }

  /** The list a push leaves: the values behind what was there, or before it with the last value first; the reply is
      its length, and the deadline stays. */
  lemma PushedList(m: Keyspace, push: Command, items: seq<Bytes>, at: Millis, run: Run, now: Millis)
    requires (push.LPush? || push.RPush?) && Undisturbed(run, push.key, at, now)
    requires if At(m, push.key, at).None? then items == [] else HoldsList(m, push.key, items, at)
    ensures var key, after := push.key, After(m, push, at, run);
      && Ask(m, push, at) == Integer(|items| + |push.values|)
      && if RanOut(m, key, at, now) then At(after, key, now).None?
         else
           && HoldsList(after, key, Joined(items, push.values, push.LPush?), now)
           && Ask(after, PTtl(key), now) == TimeLeft(m, key, at, now)
  {
    hide Reverse, Live, Step, After, Ask, KeyExec, PushTo;
    var key := push.key;
    PushIs(m, push, at);
    PushToIs(At(m, key, at), items, push.values, push.LPush?);
    AskedIs(m, push, at);
    AfterIs(m, push, at, run, now);
    LiveAt(m, key, at, now);
    if !RanOut(m, key, at, now) {
      TimeKept(m, After(m, push, at, run), key, at, now);
    }
  }

  /** LRANGE after a push: the positions of what was there and of the values, counted through. */
  lemma PushedIsRead(m: Keyspace, push: Command, items: seq<Bytes>, at: Millis, run: Run, now: Millis, start: int, stop: int)
    requires (push.LPush? || push.RPush?) && Undisturbed(run, push.key, at, now) && !RanOut(m, push.key, at, now)
    requires if At(m, push.key, at).None? then items == [] else HoldsList(m, push.key, items, at)
    ensures var all := Joined(items, push.values, push.LPush?);
      Ask(After(m, push, at, run), LRange(push.key, start, stop), now)
      == Limited(BulkArray(Between(all, FromTheEnd(start, |all|), FromTheEnd(stop, |all|), 0)))
  {
    hide *;
    PushedList(m, push, items, at, run, now);
    RangeReadsPositions(After(m, push, at, run), push.key,
      Joined(items, push.values, push.LPush?), start, stop, now);
  }

  // ---- pops ----

  lemma PopIs(m: Keyspace, pop: Command, at: Millis)
    requires pop.LPop? || pop.RPop?
    ensures KeyExec(pop, At(m, pop.key, at), at) == PopFrom(At(m, pop.key, at), pop.count, pop.LPop?)
  {
    hide PopFrom, Live;
  }

  lemma EmptyReply()
    ensures BulkArray([]) == Array([]) && |Encode(Array([]))| == 4
  {
    assert |Dec(0)| == 1;
  }

  lemma PopFromIs(e: Entry, items: seq<Bytes>, count: Option<nat>, left: bool)
    requires e.value == List(items) && items != []
    ensures var n := if count.Some? then Min(count.value, |items|) else 1;
      var popped := if left then items[..n] else Reverse(items[|items| - n..]);
      var rest := if left then items[n..] else items[..|items| - n];
      PopFrom(Some(e), count, left)
      == if count.Some? && |Encode(BulkArray(popped))| > 64 * 1024 * 1024 then Outcome(Some(e), TOO_LARGE)
         else Outcome(if rest == [] then None else Some(e.(value := List(rest))),
                      if count.Some? then BulkArray(popped) else Bulk(popped[0]))
  {
    hide Reverse, Encode, BulkArray, Popped, Remaining;
    EmptyReply();
    var n := if count.Some? then Min(count.value, |items|) else 1;
    Queues.PoppedIs(items, n, left);
    if n == 0 {
      assert items[0..] == items[..|items|] == items;
    }
  }

  /** A pop without a count replies with one element, a pop with a count with as many as were asked for or there are;
      the list is left without them, or not at all. A reply of more than 64 MiB is refused and nothing is popped. */
  lemma PopsAsMany(m: Keyspace, pop: Command, items: seq<Bytes>, at: Millis, run: Run, now: Millis)
    requires (pop.LPop? || pop.RPop?) && HoldsList(m, pop.key, items, at) && items != []
    requires Undisturbed(run, pop.key, at, now)
    ensures var n := if pop.count.Some? then Min(pop.count.value, |items|) else 1;
      var popped := if pop.LPop? then items[..n] else Reverse(items[|items| - n..]);
      var rest := if pop.LPop? then items[n..] else items[..|items| - n];
      var r, after := Ask(m, pop, at), After(m, pop, at, run);
      if pop.count.Some? && |Encode(BulkArray(popped))| > 64 * 1024 * 1024
      then r == TOO_LARGE && Step(m, pop, at).db == Live(m, at)
      else
        && r == (if pop.count.Some? then BulkArray(popped) else Bulk(popped[0]))
        && if rest == [] || RanOut(m, pop.key, at, now) then At(after, pop.key, now).None?
           else HoldsList(after, pop.key, rest, now) && Ask(after, PTtl(pop.key), now) == Ask(m, PTtl(pop.key), now)
  {
    hide Reverse, Step, KeyExec, Encode, BulkArray, PopFrom, Live, Ask, After;
    PopIs(m, pop, at);
    PopFromIs(At(m, pop.key, at).value, items, pop.count, pop.LPop?);
    AskedIs(m, pop, at);
    LiveAt(m, pop.key, at, now);
    AfterIs(m, pop, at, run, now);
    TimeIs(m, pop.key, now);
    TimeIs(After(m, pop, at, run), pop.key, now);
    if !RanOut(m, pop.key, at, now) {
      LaterAt(m, pop.key, at, now);
    }
  }

  /** Where nothing is, a pop replies with a null, or a null array if it has a count; other values are refused. */
  lemma NothingToPop(m: Keyspace, pop: Command, at: Millis)
    requires (pop.LPop? || pop.RPop?) && (At(m, pop.key, at).Some? ==> !At(m, pop.key, at).value.value.List?)
    ensures Step(m, pop, at) == Executed(Live(m, at),
      if At(m, pop.key, at).Some? then WRONG_TYPE else if pop.count.Some? then NullArray else Null)
  {
    hide KeyExec, Live;
    PopIs(m, pop, at);
    AskedIs(m, pop, at);
    LiveAt(m, pop.key, at, at);
  }
}
