/** Every step of every part of the program keeps the invariant. */
module AofSafety {
  import opened Base
  import opened Frames
  import opened Parser
  import opened RoundTrip
  import opened Commands
  import opened Semantics
  import opened Ordering
  import opened Laws
  import opened Replay
  import opened LogRuns
  import opened SnapshotFile
  import opened Database
  import opened AofDisk
  import opened AofMachine
  import opened AofInvariant
  import Codec
  import Rebuild
  import Sizes

  // ---- clients ----

  lemma ClientAppliesKeeps(s: State, a: Action, T: Millis)
    requires Inv(s, T) && a.ClientApplies? && Allowed(s, a, T)
    ensures Inv(Next(s, a), T)
  {
    hide LogOk, DiskOk, BufferOk, LogMeans, SnapshotOf, Committed, Live, Refines, IsSnapshot, Step, Wire, Encode,
         Reaches, TaskMsgs, Command.AofFrame, Command.MutatedKeys, Codec.Decodable, Codec.HasHugeDeadline, Sizes.ArgsFit,
         Served, Sensible, Restored;
    var v := Committed(s.h);
    WriteOnStore(s.mem, v, a.c, s.clock, a.at, a.after, a.reply);
    if a.reply.Error? {
      FailedWriteChangesNothing(v, a.c, a.at, T);
    } else {
      SameLater(s.mem, v, s.clock, a.at);
      ReachesSame(s.mem, v, a.c, a.at, T);
      QueueGrows(s.queue, Sent(None, Write(Encode(a.c.AofFrame(a.at).value))));
    }
  }

  lemma InvParts(s: State, T: Millis)
    requires Inv(s, T)
    ensures LogOk(s.h, T) && DiskOk(s.w, s.h, T) && ClientOk(s, T) && BufferOk(s.w, s.h, T) && TasksOk(s, T) && QueueOk(s)
  {
    hide LogOk, DiskOk, ClientOk, BufferOk, TasksOk, QueueOk;
  }

  lemma QueueGrows(queue: seq<Sent>, m: Sent)
    ensures multiset(queue + [m]) == multiset(queue) + multiset{m}
  {
  }

  /** The client gets its answer; a refusal restores the saved entries. */
  lemma ClientEndsKeeps(s: State, a: Action, T: Millis)
    requires Inv(s, T) && a.ClientEnds? && Enabled(s, a)
    ensures Inv(Next(s, a), T)
  {
    hide LogMeans, ViewOk, Pending, Within, EncodeAll, Encodings, Replayed, AllWire, Live, Fold, IsSnapshot, WriteStep,
         Restored, SnapshotOf, TaskMsgs, Encode, Served, Sensible, Refines;
    FoldNone(Committed(s.h));
    FoldNone(FirmView(s.h));
    if s.client.answer != Some(true) {
      RollbackRestores(s.client.before, s.mem, s.client.p, s.client.saved, Committed(s.h), s.clock);
    }
  }

  lemma ClockKeeps(s: State, a: Action, T: Millis)
    requires Inv(s, T) && (a.Reads? || a.Sweeps?) && Allowed(s, a, T)
    ensures Inv(Next(s, a), T)
  {
    hide LogOk, DiskOk, BufferOk, PhaseOk, Refines, IsSnapshot, Pending, WriteStep, Live, Committed, Served, Sensible,
         Restored;
    LaterClientOk(s, a.at, T);
    LiveLater(s.mem, a.at, a.at);
  }

  // ---- the rewrite task ----

  lemma SchedulesKeeps(s: State, a: Action, T: Millis)
    requires Inv(s, T) && a.Schedules? && Enabled(s, a)
    ensures Inv(Next(s, a), T)
  {
    hide LogMeans, ViewOk, Pending, Within, EncodeAll, Encodings, Replayed, AllWire, IsSnapshot, WriteStep, Live, Fold,
         Served, Sensible, Restored, Refines, Holds, AreSnapshotFrames, Command.AofFrame, Command.MutatedKeys,
         Command.IsWrite, Encode, Flatten, SameLive;
    assert s.tasks == [] && [] + [Task(s.h.attempts, AwaitsGate)] == [Task(s.h.attempts, AwaitsGate)];
  }

  lemma TaskLocksKeeps(s: State, a: Action, T: Millis)
    requires Inv(s, T) && a.TaskLocks? && Enabled(s, a)
    ensures Inv(Next(s, a), T)
  {
    hide LogOk, DiskOk, BufferOk, IsSnapshot, Pending, WriteStep, Live, Committed, Served, Sensible, Restored, Refines,
         Holds, AreSnapshotFrames, Command.AofFrame, Command.MutatedKeys, Command.IsWrite, Encode, EncodeAll, Flatten,
         SameLive;
    assert a.i == 0;
    QueueGrows(s.queue, Sent(Some(s.tasks[0].id), StartRewrite));
  }

  /** That the writer refuses to start does not happen. */
  lemma TaskGivesUpKeeps(s: State, a: Action, T: Millis)
    requires Inv(s, T) && a.TaskGivesUp?
    ensures !Enabled(s, a)
  {
    hide LogOk, DiskOk, BufferOk, ClientOk, QueueOk;
  }

  /** The temporary file is no part of the log. */
  lemma TempIsFree(w: WriterState, h: History, temp: Option<File>, T: Millis)
    requires DiskOk(w, h, T) && BufferOk(w, h, T)
    ensures var w' := w.(disk := w.disk.(temp := temp)); DiskOk(w', h, T) && BufferOk(w', h, T)
  {
    hide Pending, Committed, Logged, EncodeAll, Encode, Encodings, Within, Replayed, AllWire, Live;
  }

  /** The snapshot is taken before any write can follow the start of the buffer. */
  lemma TaskSnapshotsKeeps(s: State, a: Action, T: Millis)
    requires Inv(s, T) && a.TaskSnapshots? && Allowed(s, a, T)
    ensures Inv(Next(s, a), T)
  {
    hide LogOk, DiskOk, BufferOk, IsSnapshot, Pending, WriteStep, LogMeans, ViewOk, Live, Holds, Committed, Encode,
         Served, Sensible, Restored, Refines;
    var v, at := Committed(s.h), a.at;
    assert a.i == 0 && s.tasks[0 := Task(s.tasks[0].id, Writing(a.entries))] == [Task(s.tasks[0].id, Writing(a.entries))];
    LogMeansCommitted(s.h, T);
    SameLater(s.mem, v, s.clock, at);
    LiveKeepsView(v, at);
    LiveLater(v, at, T);
    LiveLater(s.mem, at, T);
    assert Live(s.mem, at) == Live(v, at) && SameLive(Live(s.mem, at), v, T);
    assert SnapshotOf(a.entries, v, T);
  }

  lemma TaskWritesKeeps(s: State, a: Action, T: Millis)
    requires Inv(s, T) && a.TaskWrites? && Allowed(s, a, T)
    ensures Inv(Next(s, a), T)
  {
    hide LogOk, IsSnapshot, Pending, WriteStep, SameLive, SnapshotOf, ViewOk, LogMeans, Wire, EncodeAll, Live, Encode,
         Committed, AreSnapshotFrames, Rebuild.AllCountsFit, Flatten, Served, Sensible, Restored, Refines, DiskOk,
         BufferOk;
    var frames := Flatten(a.pieces);
    TempIsFree(s.w, s.h, Some(Synced(EncodeAll(frames))), T);
    assert a.i == 0 && s.tasks[0 := Task(s.tasks[0].id, FinishSent(frames))] == [Task(s.tasks[0].id, FinishSent(frames))];
    LaterClientOk(s, a.at, T);
    SnapshotMeans(a.pieces, s.tasks[0].phase.entries, a.clocks, s.h.startView, T);
    QueueGrows(s.queue, Sent(Some(s.tasks[0].id), FinishRewrite));
  }

  /** Time passing changes nothing for the clients. */
  lemma LaterClientOk(s: State, at: Millis, T: Millis)
    requires ClientOk(s, T) && s.clock <= at <= T
    ensures ClientOk(s.(clock := at), T)
  {
    hide IsSnapshot, Pending, WriteStep, SameLive, Committed;
    var v := Committed(s.h);
    if s.client.Busy? && s.client.answer != Some(true) {
      SameLater(s.client.before, v, s.clock, at);
      SameLater(s.mem, WriteStep(v, s.client.p), s.clock, at);
    } else {
      SameLater(s.mem, v, s.clock, at);
    }
  }

  /** What the rewrite wrote replays to the keyspace at the start of the buffer. */
  lemma SnapshotMeans(pieces: seq<seq<Frame>>, entries: seq<(Bytes, Entry)>, clocks: seq<Millis>, view: Keyspace, T: Millis)
    requires |pieces| == |entries| && AreSnapshotFrames(pieces, entries, clocks) && SnapshotOf(entries, view, T)
    requires (forall j :: 0 <= j < |pieces| ==> clocks[j] <= T) && Rebuild.AllCountsFit(entries, clocks)
    ensures LogMeans(Flatten(pieces), Live(view, T), T)
  {
    hide EntryFrames, Wire, Replayed, Rebuild.CountsFit, Sizes.ValueFits, InKeyOrder, Flatten,
         EncodeAll, Load, Live;
    var w :| Holds(entries, w) && ViewOk(w) && SameLive(w, view, T);
    forall i | 0 <= i < |entries|
      ensures Sizes.ValueFits(entries[i].1.value)
      ensures Rebuild.DeadlineComesBack(entries[i].0, entries[i].1, clocks[i], T)
    {
    }
    Rebuild.SnapshotRebuilds(pieces, entries, clocks, w, T);
    Rebuild.SnapshotReloads(pieces, entries, clocks, w, T);
  }

  lemma TaskWriteFailsKeeps(s: State, a: Action, T: Millis)
    requires Inv(s, T) && a.TaskWriteFails? && Enabled(s, a)
    ensures Inv(Next(s, a), T)
  {
    hide LogOk, IsSnapshot, Pending, WriteStep, EncodeAll, LogMeans, ViewOk, SnapshotOf, Live, Committed, Served,
         Sensible, Restored, Refines, Holds, AreSnapshotFrames, Command.AofFrame, Command.MutatedKeys, Command.IsWrite,
         Encode, Flatten, SameLive, DiskOk, BufferOk;
    TempIsFree(s.w, s.h, a.temp, T);
    assert a.i == 0;
    QueueGrows(s.queue, Sent(Some(s.tasks[0].id), AbortRewrite));
  }

  lemma TaskEndsKeeps(s: State, a: Action, T: Millis)
    requires Inv(s, T) && a.TaskEnds? && Enabled(s, a)
    ensures Inv(Next(s, a), T)
  {
    hide LogOk, IsSnapshot, Pending, WriteStep, EncodeAll, Live, Committed, Served, Sensible, Restored, Refines, Holds,
         AreSnapshotFrames, Command.AofFrame, Command.MutatedKeys, Command.IsWrite, Encode, Flatten, SameLive, DiskOk,
         BufferOk, LogMeans, SnapshotOf;
    TempIsFree(s.w, s.h, a.temp, T);
    assert a.i == 0 && s.tasks[..0] + s.tasks[1..] == [];
  }

  // ---- the writer ----

  /** What the next message can be: the waiting client's write or the rewrite task's own message. */
  lemma HeadIs(s: State)
    requires QueueOk(s) && s.queue != []
    ensures s.queue[0].m.Write? ==>
      && s.client.Busy? && s.client.answer.None? && s.queue[0] == Sent(None, Write(Encode(s.client.p.frame)))
      && multiset(s.queue[1..]) == TaskMsgs(s.tasks)
    ensures !s.queue[0].m.Write? ==>
      && s.tasks != [] && TaskMsgs(s.tasks) == multiset{s.queue[0]}
      && multiset(s.queue[1..]) == ClientMsgs(s.client)
  {
    hide Encode, ClientMsgs, TaskMsgs;
    assert s.queue == [s.queue[0]] + s.queue[1..];
    var q, cs, ts := s.queue[0], ClientMsgs(s.client), TaskMsgs(s.tasks);
    assert q in cs + ts;
    ClientMsgsAre(s.client);
    TaskMsgsAre(s.tasks);
    if q in cs {
      Cancels(cs, q, multiset(s.queue[1..]), ts);
    } else {
      Cancels(ts, q, multiset(s.queue[1..]), cs);
    }
  }

  lemma Cancels(one: multiset<Sent>, q: Sent, rest: multiset<Sent>, other: multiset<Sent>)
    requires one == multiset{q} && (multiset{q} + rest == one + other || multiset{q} + rest == other + one)
    ensures rest == other
  {
    forall m: Sent
      ensures rest[m] == other[m]
    {
      assert (multiset{q} + rest)[m] == multiset{q}[m] + rest[m];
      assert (one + other)[m] == one[m] + other[m] && (other + one)[m] == other[m] + one[m];
    }
  }

  lemma ClientMsgsAre(client: Client)
    ensures ClientMsgs(client) == multiset{} ||
      (client.Busy? && client.answer.None? && ClientMsgs(client) == multiset{Sent(None, Write(Encode(client.p.frame)))})
  {
    hide Encode;
  }

  lemma TaskMsgsAre(tasks: seq<Task>)
    ensures TaskMsgs(tasks) == multiset{} ||
      (tasks != [] && exists m: Message :: !m.Write? && TaskMsgs(tasks) == multiset{Sent(Some(tasks[0].id), m)})
  {
    if tasks != [] {
      match tasks[0].phase
      case StartSent => assert TaskMsgs(tasks) == multiset{Sent(Some(tasks[0].id), StartRewrite)};
      case FinishSent(_) => assert TaskMsgs(tasks) == multiset{Sent(Some(tasks[0].id), FinishRewrite)};
      case AbortSent => assert TaskMsgs(tasks) == multiset{Sent(Some(tasks[0].id), AbortRewrite)};
      case _ =>
    }
  }

  /** The message of a task tells its phase. */
  lemma TaskMsgPhase(tasks: seq<Task>, sent: Sent)
    requires tasks != [] && TaskMsgs(tasks) == multiset{sent}
    ensures sent.task == Some(tasks[0].id)
    ensures sent.m.StartRewrite? <==> tasks[0].phase.StartSent?
    ensures sent.m.FinishRewrite? <==> tasks[0].phase.FinishSent?
    ensures sent.m.AbortRewrite? <==> tasks[0].phase.AbortSent?
  {
    assert sent in TaskMsgs(tasks);
  }

  lemma ServesWrite(s: State, x: Choice, T: Millis)
    requires Inv(s, T) && s.queue != [] && s.queue[0].m.Write? && Sensible(s.w, s.queue[0].m, x)
    ensures Inv(Served(s, x), T)
  {
    hide LogOk, DiskOk, BufferOk, WriteResult, Pending, IsSnapshot, SameLive, WriteStep, Fold, SnapshotOf, LogMeans,
         Live, TaskMsgs, Encode, Logged;
    HeadIs(s);
    WriteServed(s.w, s.h, s.client.p, x.write, T);
    EnteredView(s.h, s.client.p);
  }

  lemma EnteredView(h: History, p: LogWrite)
    ensures Committed(Entered(h, p)) == WriteStep(Committed(h), p) == FirmView(Entered(h, p))
    ensures Logged(Entered(h, p)) == Logged(h) + [p.frame] == Entered(h, p).firm
  {
    hide WriteStep, Fold;
    FoldAppend(h.pre, h.loose, h.acked);
    FoldSnoc(h.pre + h.loose, p, h.acked);
    FoldNone(FirmView(Entered(h, p)));
  }

  /** Everything the writer and the log promise, across one append. */
  lemma WriteServed(w: WriterState, h: History, p: LogWrite, x: WriteChoice, T: Millis)
    requires LogOk(h, T) && DiskOk(w, h, T) && BufferOk(w, h, T) && Pending(p, Committed(h), T)
    requires WriteSensible(x, Encode(p.frame))
    ensures var r := WriteResult(w, Encode(p.frame), x);
      var h' := Recorded(h, p, r.ok, w.failed, x);
      && LogOk(h', T) && DiskOk(r.after, h', T) && BufferOk(r.after, h', T)
      && (r.ok ==> !w.failed && !r.after.failed)
      && r.after.disk.temp == w.disk.temp && (r.after.buffer.Some? ==> w.buffer.Some?) && (!r.ok ==> r.after.buffer == w.buffer)
      && h'.attempts == h.attempts && h'.owner == h.owner && h'.startView == h.startView
  {
    hide Pending, LogMeans, ViewOk, Replayed, AllWire, Wire, WriteStep, Live, Fold, Encode, EncodeAll, Encodings, Within,
         Pushed, Resized, Synced;
    if !w.failed {
      LogMeansCommitted(h, T);
      WriteMeans(w, Encode(p.frame), x, EncodeAll(h.firm));
      if WriteResult(w, Encode(p.frame), x).ok {
        EnteredMeans(w, h, p, T);
      }
    }
  }

  /** A durable append extends the log, and the buffer if there is one, by the write. */
  lemma EnteredMeans(w: WriterState, h: History, p: LogWrite, T: Millis)
    requires LogOk(h, T) && DiskOk(w, h, T) && BufferOk(w, h, T) && Pending(p, Committed(h), T) && !w.failed
    ensures var bytes := EncodeAll(Logged(h)) + Encode(p.frame);
      var buffer := if w.buffer.Some? then Pushed(w.buffer.value, Encode(p.frame)) else None;
      var w', h' := w.(disk := w.disk.(active := Synced(bytes)), size := |bytes|, buffer := buffer), Entered(h, p);
      LogOk(h', T) && DiskOk(w', h', T) && BufferOk(w', h', T)
  {
    hide Pending, ViewOk, WriteStep, Live, Fold, Encode, EncodeAll, Encodings, Replayed, AllWire, Within;
    LogMeansCommitted(h, T);
    EnteredView(h, p);
    Grows(Logged(h), map[], p, Committed(h), T);
    if w.buffer.Some? {
      Grows(h.sinceStart, Live(h.startView, T), p, Committed(h), T);
      assert h.startLog + (h.sinceStart + [p.frame]) == (h.startLog + h.sinceStart) + [p.frame];
    }
  }

  lemma ServesStart(s: State, x: Choice, T: Millis)
    requires Inv(s, T) && s.queue != [] && s.queue[0].m.StartRewrite? && Sensible(s.w, s.queue[0].m, x)
    ensures Inv(Served(s, x), T)
    ensures HandleResult(s.w, s.queue[0].m, x).ok
  {
    hide LogMeans, ViewOk, Pending, Within, Live, Fold, SnapshotOf, IsSnapshot, WriteStep, Encode, ClientMsgs, Wire;
    HeadIs(s);
    TaskMsgPhase(s.tasks, s.queue[0]);
    var id := s.tasks[0].id;
    assert s.queue[0] == Sent(Some(id), StartRewrite);
    ToldOne(s.tasks, id, StartAnswered(true));
    assert Encodings([]) == [] && Logged(s.h) + [] == Logged(s.h);
  }

  lemma ToldOne(tasks: seq<Task>, id: nat, phase: Phase)
    requires |tasks| == 1 && tasks[0].id == id
    ensures Told(tasks, id, phase) == [Task(id, phase)]
    ensures tasks[0].phase.FinishSent? ==> FramesOf(tasks, id) == tasks[0].phase.frames
  {
  }

  lemma ServesAbort(s: State, x: Choice, T: Millis)
    requires Inv(s, T) && s.queue != [] && s.queue[0].m.AbortRewrite? && Sensible(s.w, s.queue[0].m, x)
    ensures Inv(Served(s, x), T)
  {
    hide IsSnapshot, WriteStep, LogOk, Pending, Live, Within, EncodeAll, Encode, Encodings, Replayed, AllWire,
         LogMeans, ViewOk, SnapshotOf, Committed, Logged;
    HeadIs(s);
    TaskMsgPhase(s.tasks, s.queue[0]);
    var id := s.tasks[0].id;
    assert s.queue[0] == Sent(Some(id), AbortRewrite);
    ToldOne(s.tasks, id, Ended(false));
  }

  lemma ServesFinish(s: State, x: Choice, T: Millis)
    requires Inv(s, T) && s.queue != [] && s.queue[0].m.FinishRewrite? && Sensible(s.w, s.queue[0].m, x)
    requires !HandleResult(s.w, s.queue[0].m, x).after.ill
    ensures Inv(Served(s, x), T)
  {
    hide LogOk, DiskOk, BufferOk, FinishResult, Replaces, LogMeans, SnapshotOf, Live, Pending, IsSnapshot, WriteStep,
         Encode, EncodeAll, ClientMsgs, Fold, Committed, Logged;
    HeadIs(s);
    TaskMsgPhase(s.tasks, s.queue[0]);
    var id, frames := s.tasks[0].id, s.tasks[0].phase.frames;
    assert s.queue[0] == Sent(Some(id), FinishRewrite);
    ToldOne(s.tasks, id, Ended(HandleResult(s.w, s.queue[0].m, x).ok));
    FinishServed(s.w, s.h, frames, x.finish, T);
    RebuiltView(s.h, frames);
  }

  lemma FinishingTask(s: State, T: Millis)
    requires TasksOk(s, T) && s.tasks != [] && s.tasks[0].phase.FinishSent?
    ensures LogMeans(s.tasks[0].phase.frames, Live(s.h.startView, T), T) && s.gate != HeldByRewrite
    ensures s.w.disk.temp == Some(Synced(EncodeAll(s.tasks[0].phase.frames)))
  {
    hide LogMeans, EncodeAll, SnapshotOf, Live, Committed;
  }

  /** A rewrite changes what is durable, not what is committed. */
  lemma RebuiltView(h: History, frames: seq<Frame>)
    ensures Committed(Rebuilt(h, frames)) == Committed(h) == FirmView(Rebuilt(h, frames))
    ensures Logged(Rebuilt(h, frames)) == frames + h.sinceStart == Rebuilt(h, frames).firm
    ensures h.loose == [] ==> Rebuilt(h, frames).pre == h.pre
  {
    hide Fold;
    FoldAppend(h.pre, h.loose, h.acked);
    FoldNone(FirmView(Rebuilt(h, frames)));
  }

  /** Everything the writer and the log promise, across the end of a rewrite. */
  lemma FinishServed(w: WriterState, h: History, frames: seq<Frame>, x: FinishChoice, T: Millis)
    requires LogOk(h, T) && DiskOk(w, h, T) && BufferOk(w, h, T) && LogMeans(frames, Live(h.startView, T), T)
    requires w.disk.temp == Some(Synced(EncodeAll(frames)))
    requires FinishSensible(x, Buffered(w)) && !FinishResult(w, x).after.ill
    ensures var r := FinishResult(w, x);
      var h' := if Replaces(w, x) then Rebuilt(h, frames) else h;
      && LogOk(h', T) && DiskOk(r.after, h', T) && BufferOk(r.after, h', T)
      && r.after.buffer.None? && r.after.failed == w.failed
  {
    hide FinishResult, Pending, Within, LogMeans, ViewOk, Replayed, AllWire, EncodeAll, Encode, Encodings, Live, Fold, Buffered;
    if w.buffer.None? {
      RefusedWithoutBuffer(w, x);
    } else {
      FinishMeans(w, x, EncodeAll(frames));
      BufferedIs(w, h, T);
      if Replaces(w, x) {
        RebuiltMeans(h, frames, T);
        RebuiltView(h, frames);
        if w.failed {
          SyncedIsWithin(EncodeAll(frames + h.sinceStart), Encode(h.doubtful.value.frame));
        }
      }
    }
  }

  lemma BufferedIs(w: WriterState, h: History, T: Millis)
    requires BufferOk(w, h, T) && w.buffer.Some?
    ensures Buffered(w) == EncodeAll(h.sinceStart)
    ensures AllWire(h.sinceStart) && Replayed(h.sinceStart, Live(h.startView, T), T) == Some(Live(Committed(h), T))
  {
    hide Replayed, AllWire, EncodeAll, Encodings, Live, Committed, Logged;
    FlattenEncodings(h.sinceStart);
  }

  lemma RebuiltMeans(h: History, frames: seq<Frame>, T: Millis)
    requires LogOk(h, T) && LogMeans(frames, Live(h.startView, T), T)
    requires AllWire(h.sinceStart) && Replayed(h.sinceStart, Live(h.startView, T), T) == Some(Live(Committed(h), T))
    ensures LogOk(Rebuilt(h, frames), T)
    ensures EncodeAll(frames + h.sinceStart) == EncodeAll(frames) + EncodeAll(h.sinceStart)
  {
    hide LogMeans, ViewOk, Pending, Live, Fold, Replayed, AllWire, EncodeAll;
    LogMeansCommitted(h, T);
    RebuiltView(h, frames);
    LogJoins(frames, Live(h.startView, T), h.sinceStart, Live(Committed(h), T), T);
  }

  lemma RefusedWithoutBuffer(w: WriterState, x: FinishChoice)
    requires w.buffer.None? && FinishSensible(x, Buffered(w))
    ensures FinishResult(w, x) == Handled(w, false, [])
  {
  }

  // ---- every step ----

  /** Every step of every part of the program keeps the invariant. */
  lemma StepKeepsInv(s: State, a: Action, T: Millis)
    requires Inv(s, T) && Allowed(s, a, T)
    ensures Inv(Next(s, a), T)
  {
    hide Inv, Served, Sensible, HandleResult, Refines, IsSnapshot, Holds, Wire, WriteOk, Command.AofFrame, Rebuild.AllCountsFit,
         AreSnapshotFrames, Encode, EncodeAll, Live, Reaches, Flatten, Restored, Committed;
    match a
    case ClientApplies(_, _, _, _, _) => ClientAppliesKeeps(s, a, T);
    case ClientEnds => ClientEndsKeeps(s, a, T);
    case Reads(_, _, _) => ClockKeeps(s, a, T);
    case Sweeps(_) => ClockKeeps(s, a, T);
    case Schedules => SchedulesKeeps(s, a, T);
    case TaskLocks(_) => TaskLocksKeeps(s, a, T);
    case TaskSnapshots(_, _, _) => TaskSnapshotsKeeps(s, a, T);
    case TaskGivesUp(_) => TaskGivesUpKeeps(s, a, T);
    case TaskWrites(_, _, _, _) => TaskWritesKeeps(s, a, T);
    case TaskWriteFails(_, _) => TaskWriteFailsKeeps(s, a, T);
    case TaskEnds(_, _) => TaskEndsKeeps(s, a, T);
    case WriterHandles(x) =>
      match s.queue[0].m {
        case Write(_) => ServesWrite(s, x, T);
        case StartRewrite => ServesStart(s, x, T);
        case FinishRewrite => ServesFinish(s, x, T);
        case AbortRewrite => ServesAbort(s, x, T);
      }
  }

  /** ... for a replay at every reading from then on. */
  lemma StepStaysSafe(s: State, a: Action, T: Millis)
    requires Safe(s, T) && Allowed(s, a, T)
    ensures Safe(Next(s, a), T)
  {
    hide Inv, Enabled, Allowed, Next;
    AllowedEarlier(s, a, T);
    forall t | Next(s, a).clock <= t <= T
      ensures Inv(Next(s, a), t)
    {
      StepKeepsInv(s, a, t);
    }
  }
}
