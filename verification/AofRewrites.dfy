/** What the writer does over every run when no file operation fails: it serves every write, it keeps the
    buffer of a rewrite up to its limit, and it puts the rewritten log in place. */
module AofRewrites {
  import opened Base
  import opened Frames
  import opened RoundTrip
  import opened Commands
  import opened Semantics
  import opened Laws
  import opened LogRuns
  import opened Recovery
  import opened Database
  import opened AofDisk
  import opened AofMachine
  import opened AofInvariant
  import opened AofSafety
  import opened AofGuarantees
  import opened SnapshotFile
  import Rebuild

  // ---- the buffer of a rewrite ----

  /** A rewrite that was started and has not been ended by the writer. */
  predicate Buffering(s: State) {
    s.tasks != [] &&
    var phase := s.tasks[0].phase;
    phase == StartAnswered(true) || phase.Writing? || phase.FinishSent? || phase.AbortSent?
  }

  /** What the clients wrote since the start of the rewrite takes at most 64 MiB in the log. */
  predicate WithinLimit(s: State) {
    |EncodeAll(s.h.sinceStart)| <= 64 * 1024 * 1024
  }

  ghost predicate BufferLives(s: State) {
    Buffering(s) ==> (s.w.buffer.Some? <==> WithinLimit(s))
  }

  lemma WriteKeepsBuffer(s: State, x: Choice, T: Millis)
    requires Inv(s, T) && s.queue != [] && s.queue[0].m.Write? && Sensible(s.w, s.queue[0].m, x) && BufferLives(s)
    ensures BufferLives(Served(s, x))
  {
    hide LogOk, DiskOk, ClientOk, TasksOk, QueueOk, Pending, Encode, EncodeAll, Replayed, AllWire, Live, Fold, Logged, Committed,
         Resized, Synced;
    HeadIs(s);
    EncodeAllSnoc(s.h.sinceStart, s.client.p.frame);
  }

  lemma ServedKeepsBuffer(s: State, x: Choice, T: Millis)
    requires Inv(s, T) && s.queue != [] && Sensible(s.w, s.queue[0].m, x) && BufferLives(s)
    ensures BufferLives(Served(s, x))
  {
    hide LogOk, DiskOk, ClientOk, BufferOk, QueueOk, LogMeans, SnapshotOf, WriteResult, FinishResult, Rebuilt, FramesOf,
         ClientMsgs, TaskMsgs, Committed, Logged;
    if s.queue[0].m.Write? {
      WriteKeepsBuffer(s, x, T);
    } else {
      InvParts(s, T);
      HeadIs(s);
      TaskMsgPhase(s.tasks, s.queue[0]);
    }
  }

  /** A step that is not the writer's leaves its buffer and what was written since the start. */
  lemma OthersKeepBuffer(s: State, a: Action)
    requires Enabled(s, a) && !a.WriterHandles?
    ensures Next(s, a).w.buffer == s.w.buffer && Next(s, a).h.sinceStart == s.h.sinceStart
  {
    hide Refines, IsSnapshot, Holds, Served, Sensible, Encode, EncodeAll, Live, Restored, Committed, Command.AofFrame,
         Command.MutatedKeys, Flatten, AreSnapshotFrames;
  }

  /** Nor does it take a rewrite into, or out of, the phases that need the buffer. */
  lemma OthersKeepBuffering(s: State, a: Action, T: Millis)
    requires TasksOk(s, T) && Enabled(s, a) && !a.WriterHandles?
    ensures Buffering(Next(s, a)) ==> Buffering(s)
  {
    hide Refines, IsSnapshot, Holds, Served, Sensible, Encode, EncodeAll, Live, Restored, Committed, Command.AofFrame,
         Command.MutatedKeys, Flatten, AreSnapshotFrames, SnapshotOf, LogMeans;
  }

  lemma StepKeepsBuffer(s: State, a: Action, T: Millis)
    requires Inv(s, T) && Enabled(s, a) && BufferLives(s)
    ensures BufferLives(Next(s, a))
  {
    hide LogOk, DiskOk, ClientOk, BufferOk, QueueOk, Buffering, WithinLimit, Served, Sensible, TasksOk;
    match a
    case WriterHandles(x) => ServedKeepsBuffer(s, x, T);
    case _ =>
      OthersKeepBuffer(s, a);
      OthersKeepBuffering(s, a, T);
      assert WithinLimit(Next(s, a)) <==> WithinLimit(s) by {
        SameLimit(s, Next(s, a));
      }
  }

  lemma SameLimit(s: State, t: State)
    requires t.h.sinceStart == s.h.sinceStart
    ensures WithinLimit(t) <==> WithinLimit(s)
  {
  }

  lemma NoTask(s: State)
    requires s.tasks == []
    ensures BufferLives(s)
  {
  }

  lemma {:induction false} RunKeepsBuffer(states: seq<State>, events: seq<Event>, T: Millis, i: nat)
    requires IsRun(states, events, T) && i < |states|
    ensures BufferLives(states[i])
  {
    hide Inv, LogOk, SameLive, OnDisk, BufferLives, Next, WriteOk, Wire, Reaches, Rebuild.AllCountsFit, HandleResult,
         Command.AofFrame, PowerLost, Killed, Replays, Carried, Live, Enabled;
    if i == 0 {
      NoTask(states[0]);
    } else {
      var s, e, s' := states[i - 1], events[i - 1], states[i];
      RunKeepsBuffer(states, events, T, i - 1);
      RunIsSafe(states, events, T, i - 1);
      assert Follows(s, e, s', T) && Inv(s, s.clock);
      if e.Restarted? {
        NoTask(s');
      } else {
        StepKeepsBuffer(s, e.a, s.clock);
      }
    }
  }

  /** Over every run, from its start to its end a rewrite has its buffer exactly as long as what the clients
      wrote since the start takes at most 64 MiB in the log. */
  lemma BufferLivesUpToItsLimit(s: State, T: Millis)
    requires Reached(s, T) && Buffering(s)
    ensures s.w.buffer.Some? <==> WithinLimit(s)
  {
    hide Starts, Follows, WithinLimit;
    var states, events :| IsRun(states, events, T) && states[|events|] == s;
    RunKeepsBuffer(states, events, T, |events|);
  }

  // ---- the end of a rewrite ----

  /** The file operations up to the rename succeed. */
  predicate GetsToTheRename(x: FinishChoice) {
    x.openOk && x.wroteOk && x.syncOk && x.renameOk
  }

  /** The writer puts the rewritten log in place, followed by all that was written since the start, exactly if
      that is within the limit and no file operation up to the rename fails; it reports success exactly if
      the two syncs after the rename succeed as well. Otherwise the log stays as it is. */
  lemma RewriteTakesEffect(s: State, x: Choice, T: Millis)
    requires Reached(s, T) && Enabled(s, WriterHandles(x)) && s.queue[0].m.FinishRewrite?
    ensures s.tasks != [] && s.tasks[0].phase.FinishSent?
    ensures var before, after := s.w.disk.active, Served(s, x).w.disk.active;
      var ok, f := HandleResult(s.w, s.queue[0].m, x).ok, x.finish;
      if WithinLimit(s) && GetsToTheRename(f) then
        && after.bytes == EncodeAll(s.tasks[0].phase.frames) + EncodeAll(s.h.sinceStart)
        && (ok <==> f.dirSyncOk && f.finalSyncOk)
      else after == before && !ok
  {
    hide Reached, LogOk, DiskOk, ClientOk, QueueOk, BufferOk, WithinLimit, LogMeans, SnapshotOf, EncodeAll, Encode, Live,
         Committed, Logged, Rebuilt, Buffered;
    ReachedIsSafe(s, T);
    InvParts(s, s.clock);
    HeadIs(s);
    TaskMsgPhase(s.tasks, s.queue[0]);
    BufferLivesUpToItsLimit(s, T);
    FinishingTask(s, s.clock);
    if s.w.buffer.Some? {
      BufferedIs(s.w, s.h, s.clock);
      var data := Buffered(s.w);
      assert data[..|data|] == data;
    }
  }

  // ---- writes ----

  /** The writer acknowledges a write exactly if it has not failed before and the append and its sync succeed;
      the log is then longer by exactly the write's frame, durably. Otherwise it serves no further write. */
  lemma WritesAreServed(s: State, x: Choice, T: Millis)
    requires Reached(s, T) && Enabled(s, WriterHandles(x)) && s.queue[0].m.Write?
    ensures s.client.Busy?
    ensures var t, ok := Served(s, x), !s.w.failed && x.write.wroteOk && x.write.syncOk;
      && t.client == s.client.(answer := Some(ok)) && t.mem == s.mem && t.w.failed == !ok
      && (ok ==> t.w.disk.active == Synced(s.w.disk.active.bytes + Encode(s.client.p.frame)))
  {
    hide Reached, LogOk, DiskOk, ClientOk, BufferOk, TasksOk, Encode, EncodeAll, Live, Fold, Pushed, Resized;
    ReachedIsSafe(s, T);
    HeadIs(s);
  }

  // ---- a rewrite without trouble ----

  lemma ReachedNext(s: State, a: Action, T: Millis)
    requires Reached(s, T) && Allowed(s, a, T)
    ensures Reached(Next(s, a), T)
  {
    hide Starts, Allowed, Next;
    var states, events :| IsRun(states, events, T) && states[|events|] == s;
    var longer, more := states + [Next(s, a)], events + [Stepped(a)];
    assert Follows(s, Stepped(a), Next(s, a), T);
    forall i | 0 <= i < |more|
      ensures Follows(longer[i], more[i], longer[i + 1], T)
    {
      if i < |events| {
        assert Follows(states[i], events[i], states[i + 1], T);
      }
    }
    assert IsRun(longer, more, T) && longer[|more|] == Next(s, a);
  }

  /** Between writes and rewrites nothing is under way. */
  lemma Quiet(s: State, T: Millis)
    requires Reached(s, T) && s.client.Idle? && !s.inProgress
    ensures s.tasks == [] && s.queue == [] && s.gate.Open? && s.w.buffer.None? && !s.w.ill
  {
    hide Reached, LogOk, BufferOk, Committed, SameLive, Pending, Within;
    ReachedIsSafe(s, T);
    InvParts(s, s.clock);
    assert |multiset(s.queue)| == 0;
  }

  /** A rewrite that has got its gate and its buffer. */
  function Started(s: State): State {
    s.(inProgress := true, tasks := [Task(s.h.attempts, StartAnswered(true))], gate := HeldByRewrite,
       w := s.w.(buffer := Some(EMPTY_BUFFER)),
       h := s.h.(attempts := s.h.attempts + 1, owner := s.h.attempts, sinceStart := []))
  }

  lemma Starting(s: State, x: Choice, T: Millis) returns (t: State)
    requires Reached(s, T) && s.client.Idle? && !s.inProgress
    ensures Reached(t, T) && t == Started(s).(h := t.h)
    ensures t.h.attempts == s.h.attempts + 1 && t.h.sinceStart == []
  {
    hide Reached, Committed, Logged;
    Quiet(s, T);
    var id := s.h.attempts;
    ReachedNext(s, Schedules, T);
    var s1 := Next(s, Schedules);
    assert s1 == s.(inProgress := true, tasks := [Task(id, AwaitsGate)], h := s.h.(attempts := id + 1));
    ReachedNext(s1, TaskLocks(0), T);
    var s2 := Next(s1, TaskLocks(0));
    assert s2 == s1.(tasks := [Task(id, StartSent)], gate := HeldByRewrite, queue := [Sent(Some(id), StartRewrite)]);
    ReachedNext(s2, WriterHandles(x), T);
    t := Next(s2, WriterHandles(x));
    assert t.tasks == [Task(id, StartAnswered(true))];
  }

  /** Every file operation succeeds, with nothing to append. */
  const SMOOTH: Choice := Choice(WriteChoice(0, false, false, false, false),
                                FinishChoice(true, 0, true, true, true, true, true, true))

  lemma Snapshotted(s: State, entries: seq<(Bytes, Entry)>, clocks: seq<Millis>, pieces: seq<seq<Frame>>, T: Millis)
    returns (t: State)
    requires Reached(s, T) && s.queue == [] && |s.tasks| == 1 && s.tasks[0].phase == StartAnswered(true)
    requires Holds(entries, Live(s.mem, s.clock)) && |pieces| == |entries| && AreSnapshotFrames(pieces, entries, clocks)
    requires Rebuild.AllCountsFit(entries, clocks) && forall j :: 0 <= j < |pieces| ==> clocks[j] <= s.clock
    ensures Reached(t, T)
    ensures t == s.(tasks := [Task(s.tasks[0].id, FinishSent(Flatten(pieces)))], gate := Open,
                    w := s.w.(disk := s.w.disk.(temp := Some(Synced(EncodeAll(Flatten(pieces)))))),
                    queue := [Sent(Some(s.tasks[0].id), FinishRewrite)])
  {
    hide Reached, Committed, Logged, Live, EncodeAll, Flatten, AreSnapshotFrames, Rebuild.AllCountsFit, Holds;
    ClockInTime(s, T);
    var id := s.tasks[0].id;
    var a := TaskSnapshots(0, s.clock, entries);
    ReachedNext(s, a, T);
    var s1 := Next(s, a);
    assert s1 == s.(tasks := [Task(id, Writing(entries))], gate := Open);
    var b := TaskWrites(0, s.clock, clocks, pieces);
    ReachedNext(s1, b, T);
    t := Next(s1, b);
    assert t.tasks == [Task(id, FinishSent(Flatten(pieces)))] && t.queue == [Sent(Some(id), FinishRewrite)];
  }

  lemma ClockInTime(s: State, T: Millis)
    requires Reached(s, T)
    ensures s.clock <= T
  {
    hide Reached, Inv;
    ReachedIsSafe(s, T);
  }

  lemma Finishing(s: State, frames: seq<Frame>, T: Millis) returns (t: State)
    requires Reached(s, T) && |s.tasks| == 1 && s.tasks[0].phase == FinishSent(frames)
    requires s.queue == [Sent(Some(s.tasks[0].id), FinishRewrite)] && s.w.buffer == Some(EMPTY_BUFFER) && !s.w.ill
    requires s.w.disk.temp == Some(Synced(EncodeAll(frames)))
    ensures Reached(t, T)
    ensures t.tasks == [] && t.queue == [] && !t.inProgress && t.rewriteCount == s.rewriteCount + 1
    ensures t.mem == s.mem && t.clock == s.clock && t.client == s.client && t.gate == s.gate
    ensures t.w.disk.active == Synced(EncodeAll(frames)) && t.w.disk.previous == []
  {
    hide Reached, Committed, Logged, EncodeAll;
    var id := s.tasks[0].id;
    ReachedNext(s, WriterHandles(SMOOTH), T);
    var s1 := Next(s, WriterHandles(SMOOTH));
    assert s1.tasks == [Task(id, Ended(true))];
    ReachedNext(s1, TaskEnds(0, None), T);
    t := Next(s1, TaskEnds(0, None));
  }

  /** A rewrite can go through whenever none is in progress and no client is writing: it leaves the log as just
      what the snapshot printed, durably, and memory, clients and gate as they were. */
  lemma RewriteGoesThrough(s: State, entries: seq<(Bytes, Entry)>, clocks: seq<Millis>, pieces: seq<seq<Frame>>, T: Millis)
    requires Reached(s, T) && s.client.Idle? && !s.inProgress
    requires Holds(entries, Live(s.mem, s.clock)) && |pieces| == |entries| && AreSnapshotFrames(pieces, entries, clocks)
    requires Rebuild.AllCountsFit(entries, clocks) && forall j :: 0 <= j < |pieces| ==> clocks[j] <= s.clock
    ensures exists t ::
      && Reached(t, T)
      && t.w.disk.active == Synced(EncodeAll(Flatten(pieces))) && t.w.disk.previous == []
      && t.mem == s.mem && t.clock == s.clock && t.client.Idle? && t.gate.Open? && !t.inProgress
      && t.rewriteCount == s.rewriteCount + 1
  {
    hide Reached, Live, EncodeAll, Flatten, AreSnapshotFrames, Rebuild.AllCountsFit, Holds;
    Quiet(s, T);
    var s1 := Starting(s, SMOOTH, T);
    var s2 := Snapshotted(s1, entries, clocks, pieces, T);
    var t := Finishing(s2, Flatten(pieces), T);
  }
}
