/** Lists as queues and stacks, and strings as registers, over whole runs of commands with their
    replies (`src/cmd/list.rs`, `src/cmd/string.rs`). */
module Queues {
  import opened Base
  import opened Limits
  import opened Frames
  import opened Commands
  import opened Semantics
  import opened Laws

  // ---- a list as a queue ----

  predicate PushesAt(c: Command, key: Bytes, left: bool) {
    if left then c.LPush? && c.key == key else c.RPush? && c.key == key
  }

  predicate PopsAt(c: Command, key: Bytes, left: bool) {
    if left then c.LPop? && c.key == key else c.RPop? && c.key == key
  }

  /** Commands that push at one end of the list, pop at the other (the left one if `left`), or leave the
      key alone. */
  predicate QueueRun(run: Run, key: Bytes, left: bool) {
    forall i :: 0 <= i < |run| ==>
      PushesAt(run[i].0, key, !left) || PopsAt(run[i].0, key, left) || key !in run[i].0.MutatedKeys()
  }

  /** The key holds a list without a deadline, or nothing. */
  predicate QueueAt(m: Keyspace, key: Bytes) {
    key in m ==> m[key].value.List? && m[key].expiresAt.None?
  }

  /** The elements in the order in which they are popped. */
  function Waiting(m: Keyspace, key: Bytes, left: bool): seq<Bytes>
    requires QueueAt(m, key)
  {
    if key !in m then [] else if left then m[key].value.items else Reverse(m[key].value.items)
  }

  function PushedBy(c: Command, key: Bytes, left: bool): seq<Bytes> {
    if PushesAt(c, key, !left) then c.values else []
  }

  function Payload(f: Frame): Bytes {
    if f.Bulk? then f.data else []
  }

  /** The elements in the reply to a pop: none, one or several. */
  function Elements(reply: Frame): seq<Bytes> {
    if reply.Bulk? then [reply.data]
    else if reply.Array? then seq(|reply.items|, i requires 0 <= i < |reply.items| => Payload(reply.items[i]))
    else []
  }

  function PoppedBy(c: Command, key: Bytes, left: bool, reply: Frame): seq<Bytes> {
    if PopsAt(c, key, left) then Elements(reply) else []
  }

  function AllPushed(run: Run, key: Bytes, left: bool): seq<Bytes> {
    if run == [] then [] else PushedBy(run[0].0, key, left) + AllPushed(run[1..], key, left)
  }

  /** Everything the clients got out of the list, reply after reply. */
  function AllPopped(run: Run, replies: seq<Frame>, key: Bytes, left: bool): seq<Bytes>
    requires |replies| == |run|
  {
    if run == [] then []
    else PoppedBy(run[0].0, key, left, replies[0]) + AllPopped(run[1..], replies[1..], key, left)
  }

  lemma ReverseAppend(a: seq<Bytes>, b: seq<Bytes>)
    ensures Reverse(a + b) == Reverse(b) + Reverse(a)
  {
    hide Reverse;
  }

  lemma ElementsOfArray(xs: seq<Bytes>)
    ensures Elements(BulkArray(xs)) == xs
  {
  }

  lemma QueueLive(m: Keyspace, key: Bytes, now: Millis)
    requires QueueAt(m, key)
    ensures Lookup(Live(m, now), key) == Lookup(m, key)
  {
  }

  lemma PushWaits(m: Keyspace, c: Command, now: Millis, key: Bytes, left: bool)
    requires QueueAt(m, key) && PushesAt(c, key, !left)
    ensures var next := Step(m, c, now).db;
      QueueAt(next, key) && Waiting(next, key, left) == Waiting(m, key, left) + c.values
  {
    hide Reverse;
    QueueLive(m, key, now);
    var items := if key in m then m[key].value.items else [];
    assert Reverse(Reverse(c.values)) == c.values;
    ReverseAppend(Reverse(c.values), items);
  }

  predicate IsQueue(e: Option<Entry>) {
    e.Some? ==> e.value.value.List? && e.value.expiresAt.None?
  }

  function WaitingIn(e: Option<Entry>, left: bool): seq<Bytes>
    requires IsQueue(e)
  {
    if e.None? then [] else if left then e.value.value.items else Reverse(e.value.value.items)
  }

  lemma PopFromTakes(cur: Option<Entry>, count: Option<nat>, left: bool)
    requires IsQueue(cur)
    ensures var o := PopFrom(cur, count, left);
      IsQueue(o.entry) && Elements(o.reply) + WaitingIn(o.entry, left) == WaitingIn(cur, left)
  {
    hide Reverse, Encode, BulkArray, Popped, Remaining;
    NoElements();
    if cur.Some? {
      var items := cur.value.value.items;
      var n := if count.None? then Min(1, |items|) else Min(count.value, |items|);
      ElementsOfArray(Popped(items, n, left));
      PoppedFirst(items, n, left);
      if n == 1 {
        assert Popped(items, n, left) == [Popped(items, n, left)[0]];
      }
    }
  }

  lemma NoElements()
    ensures Elements(Null) == Elements(NullArray) == Elements(Array([])) == Elements(TOO_LARGE) == []
    ensures forall left :: WaitingIn(None, left) == []
    ensures Reverse<Bytes>([]) == []
  {
  }

  /** A pop on the whole keyspace is a pop on its key. */
  lemma PopStep(m: Keyspace, c: Command, now: Millis, left: bool)
    requires if left then c.LPop? else c.RPop?
    ensures var o := PopFrom(Lookup(Live(m, now), c.key), c.count, left);
      Step(m, c, now) == Executed(Put(Live(m, now), c.key, o.entry), o.reply)
  {
    hide PopFrom, Live;
  }

  lemma PopTakes(m: Keyspace, c: Command, now: Millis, key: Bytes, left: bool)
    requires QueueAt(m, key) && PopsAt(c, key, left)
    ensures var r := Step(m, c, now);
      QueueAt(r.db, key) && Elements(r.reply) + Waiting(r.db, key, left) == Waiting(m, key, left)
  {
    hide Step, PopFrom, Elements, Live, Reverse;
    QueueLive(m, key, now);
    PopStep(m, c, now, left);
    PopFromTakes(Lookup(m, key), c.count, left);
  }

  lemma PoppedIs(items: seq<Bytes>, n: nat, left: bool)
    requires n <= |items|
    ensures Popped(items, n, left) == if left then items[..n] else Reverse(items[|items| - n..])
    ensures Remaining(items, n, left) == if left then items[n..] else items[..|items| - n]
  {
    hide Reverse;
  }

  /** What is popped comes first in the order of popping; the rest follows. */
  lemma PoppedFirst(items: seq<Bytes>, n: nat, left: bool)
    requires n <= |items|
    ensures var order := if left then items else Reverse(items);
      var rest := Remaining(items, n, left);
      order == Popped(items, n, left) + (if left then rest else Reverse(rest))
  {
    hide *;
    PoppedIs(items, n, left);
    var k := if left then n else |items| - n;
    CutInTwo(items, k);
    ReverseAppend(items[..k], items[k..]);
  }

  lemma CutInTwo(items: seq<Bytes>, k: nat)
    requires k <= |items|
    ensures items[..k] + items[k..] == items
  {
  }

  lemma OthersLeaveIt(m: Keyspace, c: Command, now: Millis, key: Bytes)
    requires key !in c.MutatedKeys()
    ensures Lookup(Step(m, c, now).db, key) == Lookup(Live(m, now), key)
  {
    hide Exec;
    OnlyMutatedKeysChange(c, Live(m, now), now);
  }

  lemma OthersStep(m: Keyspace, c: Command, now: Millis, key: Bytes, left: bool)
    requires QueueAt(m, key) && key !in c.MutatedKeys()
    ensures var next := Step(m, c, now).db; QueueAt(next, key) && Waiting(next, key, left) == Waiting(m, key, left)
  {
    hide Step, Live, Reverse, Command.MutatedKeys;
    QueueLive(m, key, now);
    OthersLeaveIt(m, c, now, key);
  }

  lemma QueueStep(m: Keyspace, c: Command, now: Millis, key: Bytes, left: bool)
    requires QueueAt(m, key) && QueueRun([(c, now)], key, left)
    ensures var r := Step(m, c, now);
      && QueueAt(r.db, key)
      && PoppedBy(c, key, left, r.reply) + Waiting(r.db, key, left) == Waiting(m, key, left) + PushedBy(c, key, left)
  {
    hide Step, Elements, QueueAt, Waiting;
    assert [(c, now)][0].0 == c;
    if PushesAt(c, key, !left) {
      PushWaits(m, c, now, key, left);
    } else if PopsAt(c, key, left) {
      PopTakes(m, c, now, key, left);
    } else {
      OthersStep(m, c, now, key, left);
    }
  }

  /** First in, first out: over any run in which the list at `key` is pushed at one end and popped at the
      other, and anything else happens to other keys, what the replies handed out, followed by what is
      still there, is what was there at the start, followed by what was pushed. Nothing is lost, handed
      out twice or overtaken. */
  lemma {:induction false} ListIsAQueue(m: Keyspace, run: Run, key: Bytes, left: bool)
    requires QueueAt(m, key) && QueueRun(run, key, left)
    ensures QueueAt(RunDb(run, m), key)
    ensures AllPopped(run, RunReplies(run, m), key, left) + Waiting(RunDb(run, m), key, left)
         == Waiting(m, key, left) + AllPushed(run, key, left)
    decreases |run|
  {
    hide Step, PoppedBy, PushedBy, Waiting, QueueAt;
    if run != [] {
      var (c, now) := run[0];
      var r := Step(m, c, now);
      assert [(c, now)][0] == run[0];
      QueueStep(m, c, now, key, left);
      assert forall i :: 0 <= i < |run[1..]| ==> run[1..][i] == run[i + 1];
      ListIsAQueue(r.db, run[1..], key, left);
      var first, later := PoppedBy(c, key, left, r.reply), AllPopped(run[1..], RunReplies(run[1..], r.db), key, left);
      assert RunReplies(run, m)[1..] == RunReplies(run[1..], r.db);
      Regroup(first, later, Waiting(RunDb(run, m), key, left), Waiting(r.db, key, left),
              AllPushed(run[1..], key, left), Waiting(m, key, left), PushedBy(c, key, left));
    }
  }

  /** Elements listed from the left, in the order in which they are popped. */
  function OutOrder(items: seq<Bytes>, left: bool): seq<Bytes> {
    if left then items else Reverse(items)
  }

  /** LRANGE from the first element to the last shows what waits to be popped. */
  lemma RangeIsWaiting(m: Keyspace, key: Bytes, left: bool, now: Millis)
    requires QueueAt(m, key)
    ensures var r := Step(m, LRange(key, 0, -1), now).reply;
      r.Array? ==> OutOrder(Elements(r), left) == Waiting(m, key, left)
  {
    hide Reverse, Encode, BulkArray, Elements;
    QueueLive(m, key, now);
    NoElements();
    if key in m {
      var items := m[key].value.items;
      ElementsOfArray(items);
      ElementsOfArray([]);
      assert items[0..|items|] == items;
    }
  }

  /** The same in replies alone: what the pops handed out, followed by what LRANGE shows at the end, is what
      LRANGE showed at the start, followed by what was pushed. */
  lemma RepliesAddUp(m: Keyspace, run: Run, key: Bytes, left: bool, before: Millis, after: Millis)
    requires QueueAt(m, key) && QueueRun(run, key, left)
    ensures var first, last := Step(m, LRange(key, 0, -1), before).reply, Step(RunDb(run, m), LRange(key, 0, -1), after).reply;
      first.Array? && last.Array? ==>
        AllPopped(run, RunReplies(run, m), key, left) + OutOrder(Elements(last), left)
        == OutOrder(Elements(first), left) + AllPushed(run, key, left)
  {
    hide *;
    ListIsAQueue(m, run, key, left);
    RangeIsWaiting(m, key, left, before);
    RangeIsWaiting(RunDb(run, m), key, left, after);
  }

  lemma Regroup(a: seq<Bytes>, b: seq<Bytes>, end: seq<Bytes>, mid: seq<Bytes>, q: seq<Bytes>, start: seq<Bytes>, p: seq<Bytes>)
    requires b + end == mid + q && a + mid == start + p
    ensures (a + b) + end == start + (p + q)
  {
    assert (a + b) + end == a + (b + end);
    assert a + (mid + q) == (a + mid) + q;
  }

  // ---- a list as a stack ----

  /** Popping as many as were pushed at the same end hands them back, last pushed first, and leaves the
      keyspace as it was; if the reply would be too large, it is refused and nothing is popped. */
  lemma PopUndoesPush(m: Keyspace, key: Bytes, values: seq<Bytes>, left: bool, now: Millis)
    requires values != [] && (key in Live(m, now) ==> m[key].value.List? && m[key].value.items != [])
    ensures var push := if left then LPush(key, values) else RPush(key, values);
      var pop := if left then LPop(key, Some(|values|)) else RPop(key, Some(|values|));
      var pushed := Step(m, push, now);
      var popped := Step(pushed.db, pop, now);
      && pushed.reply == Integer((if key in Live(m, now) then |m[key].value.items| else 0) + |values|)
      && if |Encode(BulkArray(Reverse(values)))| <= MAX_RESPONSE_FRAME_BYTES
         then popped == Executed(Live(m, now), BulkArray(Reverse(values)))
         else popped == Executed(pushed.db, TOO_LARGE)
  {
    hide Encode, Reverse, BulkArray, PopFrom;
    var push := if left then LPush(key, values) else RPush(key, values);
    var pop := if left then LPop(key, Some(|values|)) else RPop(key, Some(|values|));
    var v, pushed := Live(m, now), Step(m, push, now).db;
    var cur := Lookup(v, key);
    var e := PushTo(cur, values, left).entry;
    PopStep(pushed, pop, now, left);
    LiveIsFresh(m, now);
    PopFromPushed(cur, values, left);
    PutBack(v, key, e);
  }

  lemma PutBack(v: Keyspace, key: Bytes, e: Option<Entry>)
    ensures Put(Put(v, key, e), key, Lookup(v, key)) == v
    ensures Put(Put(v, key, e), key, e) == Put(v, key, e)
  {
  }

  lemma PopFromPushed(cur: Option<Entry>, values: seq<Bytes>, left: bool)
    requires values != [] && (cur.Some? ==> cur.value.value.List? && cur.value.value.items != [])
    ensures var o := PushTo(cur, values, left);
      && o.reply == Integer((if cur.Some? then |cur.value.value.items| else 0) + |values|)
      && PopFrom(o.entry, Some(|values|), left)
         == if |Encode(BulkArray(Reverse(values)))| <= MAX_RESPONSE_FRAME_BYTES
            then Outcome(cur, BulkArray(Reverse(values))) else Outcome(o.entry, TOO_LARGE)
  {
    hide Encode, Reverse, BulkArray, Popped, Remaining;
    PoppedBack(if cur.Some? then cur.value.value.items else [], values, left);
  }

  lemma PoppedBack(items: seq<Bytes>, values: seq<Bytes>, left: bool)
    ensures var pushed := if left then Reverse(values) + items else items + values;
      && Popped(pushed, |values|, left) == Reverse(values)
      && Remaining(pushed, |values|, left) == items
  {
    hide Reverse;
    var pushed := if left then Reverse(values) + items else items + values;
    if !left {
      assert pushed[|pushed| - |values|..] == values;
    }
  }

  // ---- a string as a register ----

  predicate LeavesKey(run: Run, key: Bytes) {
    forall i :: 0 <= i < |run| ==> key !in run[i].0.MutatedKeys()
  }

  /** Clock readings that never go back, from `from` to `to`. */
  predicate InOrder(run: Run, from: Millis, to: Millis) {
    && from <= to
    && (forall i :: 0 <= i < |run| ==> from <= run[i].1 <= to)
    && forall i, j :: 0 <= i < j < |run| ==> run[i].1 <= run[j].1
  }

  lemma {:induction false} EntryStays(m: Keyspace, run: Run, key: Bytes, e: Option<Entry>, from: Millis, to: Millis)
    requires LeavesKey(run, key) && InOrder(run, from, to) && Fresh(Lookup(m, key), from) == Fresh(e, from)
    ensures Fresh(Lookup(RunDb(run, m), key), to) == Fresh(e, to)
    decreases |run|
  {
    hide Step;
    if run != [] {
      var (c, now) := run[0];
      OthersLeaveIt(m, c, now, key);
      assert Lookup(Live(m, now), key) == Fresh(Lookup(m, key), now);
      assert forall i :: 0 <= i < |run[1..]| ==> run[1..][i] == run[i + 1];
      EntryStays(Step(m, c, now).db, run[1..], key, e, now, to);
    }
  }

  /** After SET, whatever happens to other keys, GET, STRLEN and PTTL read back the value, its length and
      the time left until the deadline, and from the deadline on they find nothing. */
  lemma SetReadsBack(m: Keyspace, key: Bytes, value: Bytes, expiresAt: Option<Millis>, at: Millis, run: Run, now: Millis)
    requires BulkResponseFits(|value|)
    requires LeavesKey(run, key) && InOrder(run, at, now)
    ensures Step(m, Set(key, value, expiresAt), at).reply == OK
    ensures var after := RunDb(run, Step(m, Set(key, value, expiresAt), at).db);
      var get, len, ttl := Step(after, Get(key), now).reply, Step(after, Strlen(key), now).reply, Step(after, PTtl(key), now).reply;
      if expiresAt.Some? && expiresAt.value <= now then get == Null && len == Integer(0) && ttl == Integer(-2)
      else
        && get == Bulk(value) && len == Integer(|value|)
        && ttl == Integer(if expiresAt.None? then -1 else Min(expiresAt.value - now, I64_MAX))
  {
    hide BulkResponseFits;
    var e := Entry(Str(value), expiresAt);
    var was := Step(m, Set(key, value, expiresAt), at).db;
    assert Lookup(was, key) == Fresh(Some(e), at);
    EntryStays(was, run, key, Some(e), at, now);
    var after := RunDb(run, was);
    assert Lookup(Live(after, now), key) == Fresh(Lookup(after, key), now);
  }
}
