/** Expiry is invisible: dropping expired keys lazily, actively or not at all changes no reply
    (`src/db/expire.rs`, and the stale checks throughout `src/cmd`). */
module Expiry {
  import opened Frames
  import opened Commands
  import opened Semantics
  import opened Database
  import Laws

  /** What happens to the store: a command with its reply, or a sweep. */
  datatype Event = Did(c: Command, at: Millis, reply: Frame) | Swept(at: Millis)

  /** One event on the stored entries, as `Db.Apply` and `Db.SweepOnce` promise. */
  ghost predicate Happens(before: Keyspace, e: Event, after: Keyspace) {
    match e
    case Did(c, at, reply) => Refines(before, c, at, after, reply)
    case Swept(at) => after == Live(before, at)
  }

  /** A run of the store: the entries before and after every event. */
  ghost predicate Runs(states: seq<Keyspace>, events: seq<Event>) {
    |states| == |events| + 1 && forall i :: 0 <= i < |events| ==> Happens(states[i], events[i], states[i + 1])
  }

  predicate Ordered(events: seq<Event>, start: Millis)
    decreases |events|
  {
    events == [] || (start <= events[0].at && Ordered(events[1..], events[0].at))
  }

  function LastAt(events: seq<Event>, start: Millis): Millis {
    if events == [] then start else events[|events| - 1].at
  }

  /** The commands of a run, without the sweeps. */
  function Asked(events: seq<Event>): seq<(Command, Millis)> {
    if events == [] then []
    else if events[0].Did? then [(events[0].c, events[0].at)] + Asked(events[1..])
    else Asked(events[1..])
  }

  function Replies(events: seq<Event>): seq<Frame> {
    if events == [] then []
    else if events[0].Did? then [events[0].reply] + Replies(events[1..])
    else Replies(events[1..])
  }

  /** The replies are those of the plain map; only hash listings leave their order open. */
  ghost predicate Answers(m: Keyspace, asked: seq<(Command, Millis)>, replies: seq<Frame>)
    decreases |asked|
  {
    if asked == [] then replies == []
    else
      && replies != []
      && ReplyMatches(m, asked[0].0, asked[0].1, replies[0])
      && Answers(Step(m, asked[0].0, asked[0].1).db, asked[1..], replies[1..])
  }

  lemma SameLiveLater(a: Keyspace, b: Keyspace, now: Millis, later: Millis)
    requires Live(a, now) == Live(b, now) && now <= later
    ensures Live(a, later) == Live(b, later)
  {
    hide Live;
    Laws.LiveLater(a, now, later);
    Laws.LiveLater(b, now, later);
  }

  /** A reply depends on the live view only. */
  lemma SameReply(a: Keyspace, b: Keyspace, c: Command, now: Millis, r: Frame)
    requires Live(a, now) == Live(b, now) && ReplyMatches(a, c, now, r)
    ensures ReplyMatches(b, c, now, r)
  {
    hide Exec;
    if IsListing(c) {
      assert Lookup(Live(a, now), c.key) == Fresh(Lookup(a, c.key), now);
      assert Lookup(Live(b, now), c.key) == Fresh(Lookup(b, c.key), now);
    }
  }

  /** Every run of the store answers like the plain map, and shows the same live view at its end. */
  lemma {:induction false} RunsLikeThePlainMap(states: seq<Keyspace>, events: seq<Event>, m: Keyspace, start: Millis, end: Millis)
    requires Runs(states, events) && Ordered(events, start) && LastAt(events, start) <= end
    requires Live(states[0], start) == Live(m, start)
    ensures Answers(m, Asked(events), Replies(events))
    ensures Live(states[|events|], end) == Live(RunDb(Asked(events), m), end)
    decreases |events|
  {
    hide Live, Refines, ReplyMatches, Step;
    if events == [] {
      SameLiveLater(states[0], m, start, end);
    } else {
      var at := events[0].at;
      SameLiveLater(states[0], m, start, at);
      assert Happens(states[0], events[0], states[1]);
      Laws.LiveLater(states[0], at, at);
      forall i | 0 <= i < |events[1..]|
        ensures Happens(states[1..][i], events[1..][i], states[1..][i + 1])
      {
        assert Happens(states[i + 1], events[i + 1], states[i + 2]);
      }
      if events[0].Did? {
        var c := events[0].c;
        DidStep(states[0], m, c, at, states[1], events[0].reply);
        RunsLikeThePlainMap(states[1..], events[1..], Step(m, c, at).db, at, end);
      } else {
        RunsLikeThePlainMap(states[1..], events[1..], m, at, end);
      }
    }
  }

  lemma DidStep(s: Keyspace, m: Keyspace, c: Command, at: Millis, s': Keyspace, r: Frame)
    requires Live(s, at) == Live(m, at) && Refines(s, c, at, s', r)
    ensures ReplyMatches(m, c, at, r) && Live(s', at) == Live(Step(m, c, at).db, at)
  {
    hide Live, ReplyMatches, Exec;
    SameReply(s, m, c, at, r);
    Laws.LiveLater(s', at, at);
  }

  lemma {:induction false} AnswersAgree(m: Keyspace, asked: seq<(Command, Millis)>, one: seq<Frame>, two: seq<Frame>)
    requires Answers(m, asked, one) && Answers(m, asked, two)
    ensures |one| == |two| == |asked|
    ensures forall i :: 0 <= i < |asked| && !IsListing(asked[i].0) ==> one[i] == two[i]
    decreases |asked|
  {
    hide Step, Live;
    if asked != [] {
      AnswersAgree(Step(m, asked[0].0, asked[0].1).db, asked[1..], one[1..], two[1..]);
      forall i | 0 <= i < |asked| && !IsListing(asked[i].0)
        ensures one[i] == two[i]
      {
        if i > 0 {
          assert asked[1..][i - 1] == asked[i];
          assert one[1..][i - 1] == one[i] && two[1..][i - 1] == two[i];
        }
      }
    }
  }

  /** Two runs that ask the same at the same times reply the same, however often either sweeps. */
  lemma SweepsAreInvisible(states: seq<Keyspace>, events: seq<Event>, states': seq<Keyspace>, events': seq<Event>,
                           start: Millis, end: Millis)
    requires Runs(states, events) && Ordered(events, start) && LastAt(events, start) <= end
    requires Runs(states', events') && Ordered(events', start) && LastAt(events', start) <= end
    requires states[0] == states'[0] && Asked(events) == Asked(events')
    ensures |Replies(events)| == |Replies(events')| == |Asked(events)|
    ensures forall i :: 0 <= i < |Asked(events)| && !IsListing(Asked(events)[i].0) ==> Replies(events)[i] == Replies(events')[i]
    ensures Live(states[|events|], end) == Live(states'[|events'|], end)
  {
    hide Answers, Live, Happens;
    RunsLikeThePlainMap(states, events, states[0], start, end);
    RunsLikeThePlainMap(states', events', states[0], start, end);
    AnswersAgree(states[0], Asked(events), Replies(events), Replies(events'));
  }
}
