/** What holds in every reachable state of the append-only file protocol. `T` is the clock reading of
    some later replay: no write needs a key that expires between the write and `T`. */
module AofInvariant {
  import opened Base
  import opened Limits
  import opened Frames
  import opened Parser
  import opened RoundTrip
  import opened Commands
  import opened Semantics
  import opened Laws
  import opened LogRuns
  import opened Database
  import opened AofDisk
  import opened AofMachine
  import Codec
  import Listings
  import Rebuild
  import Sizes

  // ---- assumptions on a step ----

  /** A write as a client can send it. */
  ghost predicate WriteOk(c: Command, at: Millis, T: Millis) {
    c.IsWrite() && Codec.Decodable(c, at) && Sizes.ArgsFit(c) && !Codec.HasHugeDeadline(c) && at <= T
  }

  /** A step the program can take and that is assumed to go well in these ways: clock readings stay at or
      before `T`; a write that succeeds has a log frame within the limits of
      the parser and does not need a key that expires before `T`; the chunks of a snapshot fit the
      parser; and the size counter stays right. */
  ghost predicate Allowed(s: State, a: Action, T: Millis) {
    && Enabled(s, a)
    && match a
       case ClientApplies(c, at, reply, _, _) =>
         && WriteOk(c, at, T)
         && (!reply.Error? ==> c.AofFrame(at).Some? && Wire(c.AofFrame(at).value) && Reaches(s.mem, c, at, T))
       case Reads(_, at, _) => at <= T
       case Sweeps(at) => at <= T
       case TaskSnapshots(_, at, _) => at <= T
       case TaskWrites(i, at, clocks, _) => at <= T && Rebuild.AllCountsFit(s.tasks[i].phase.entries, clocks)
       case WriterHandles(x) => !HandleResult(s.w, s.queue[0].m, x).after.ill
       case _ => true
  }

  // ---- the invariant ----

  ghost predicate SmallDeadlines(m: Keyspace) {
    forall k :: k in m && m[k].expiresAt.Some? ==> m[k].expiresAt.value <= MAX_EXPIRE_AT_MS
  }

  ghost predicate ViewOk(v: Keyspace) {
    Sizes.Sane(v) && SmallDeadlines(v)
  }

  /** The frames, replayed at `T` from nothing, give the keyspace. */
  ghost predicate LogMeans(fs: seq<Frame>, v: Keyspace, T: Millis) {
    AllWire(fs) && forall nothing :: nothing == map[] ==> Replayed(fs, nothing, T) == Some(v)
  }

  ghost function WriteStep(m: Keyspace, p: LogWrite): Keyspace {
    Step(m, p.c, p.at).db
  }

  /** A logged write that succeeds on `v` and can be replayed at `T`. */
  ghost predicate Pending(p: LogWrite, v: Keyspace, T: Millis) {
    && WriteOk(p.c, p.at, T) && p.c.AofFrame(p.at) == Some(p.frame) && Wire(p.frame)
    && !Step(v, p.c, p.at).reply.Error? && Reaches(v, p.c, p.at, T)
  }

  ghost predicate AllPending(ps: seq<LogWrite>, v: Keyspace, T: Millis) {
    forall i :: 0 <= i < |ps| ==> Pending(ps[i], Fold(ps[..i], v), T)
  }

  ghost predicate LogOk(h: History, T: Millis) {
    LogMeans(h.firm, Live(FirmView(h), T), T) && ViewOk(FirmView(h)) && AllPending(h.loose, FirmView(h), T)
  }

  /** A healthy writer has exactly the log on disk, the firm part of it durably; a failed one may have
      part of the one append that failed behind it. */
  ghost predicate DiskOk(w: WriterState, h: History, T: Millis) {
    && !w.ill
    && if !w.failed then
         && w.disk.active.bytes == EncodeAll(Logged(h)) && w.disk.active.lost.None? && w.size == |EncodeAll(Logged(h))|
         && |EncodeAll(h.firm)| <= w.disk.active.synced <= |EncodeAll(Logged(h))| && !h.damaged
       else
         && h.doubtful.Some? && Pending(h.doubtful.value, Committed(h), T)
         && Within(w.disk.active, EncodeAll(h.firm), EncodeAll(Logged(h)) + Encode(h.doubtful.value.frame))
         && EncodeAll(Logged(h)) <= w.disk.active.bytes && (!h.damaged ==> w.disk.active.bytes == EncodeAll(Logged(h)))
  }

  /** Outside of writes memory shows what is committed; inside, that and the write. */
  ghost predicate ClientOk(s: State, T: Millis) {
    && s.clock <= T
    && match s.client
       case Idle => s.gate != HeldByClient && SameLive(s.mem, Committed(s.h), s.clock)
       case Busy(p, saved, before, answer) =>
         && s.gate == HeldByClient && p.at <= s.clock
         && IsSnapshot(saved, p.c.MutatedKeys(), before)
         && (answer == Some(true) ==>
               && !s.w.failed && s.h.loose == [] && s.h.pre != [] && s.h.pre[|s.h.pre| - 1] == p
               && SameLive(s.mem, Committed(s.h), s.clock))
         && (answer != Some(true) ==>
               && Pending(p, Committed(s.h), T)
               && SameLive(before, Committed(s.h), s.clock)
               && SameLive(s.mem, WriteStep(Committed(s.h), p), s.clock))
  }

  ghost predicate SameLive(a: Keyspace, b: Keyspace, t: Millis) {
    Live(a, t) == Live(b, t)
  }

  function Encodings(fs: seq<Frame>): (r: seq<Bytes>)
    ensures |r| == |fs|
  {
    seq(|fs|, i requires 0 <= i < |fs| => Encode(fs[i]))
  }

  /** While the buffer exists, the log is the log at the start of the rewrite followed by the buffered
      frames, and those frames lead from the keyspace at the start to the present one. */
  ghost predicate BufferOk(w: WriterState, h: History, T: Millis) {
    w.buffer.Some? ==>
      && w.buffer.value == RewriteBuf(Encodings(h.sinceStart), |EncodeAll(h.sinceStart)|)
      && AllWire(h.sinceStart)
      && Logged(h) == h.startLog + h.sinceStart
      && Replayed(h.sinceStart, Live(h.startView, T), T) == Some(Live(Committed(h), T))
  }

  /** The entries are those of a keyspace that shows at `T` what `v` shows. */
  ghost predicate SnapshotOf(entries: seq<(Bytes, Entry)>, v: Keyspace, T: Millis) {
    exists w :: Holds(entries, w) && ViewOk(w) && SameLive(w, v, T)
  }

  ghost predicate PhaseOk(w: WriterState, h: History, gate: Gate, task: Task, T: Millis) {
    && (w.buffer.Some? ==> h.owner == task.id)
    && (gate == HeldByRewrite <==> task.phase.StartSent? || task.phase.StartAnswered?)
    && match task.phase
       case AwaitsGate => w.buffer.None?
       case StartSent => w.buffer.None?
       case StartAnswered(ok) => ok && w.buffer.Some? && h.startView == Committed(h)
       case Writing(entries) => SnapshotOf(entries, h.startView, T)
       case FinishSent(frames) =>
         LogMeans(frames, Live(h.startView, T), T) && w.disk.temp == Some(Synced(EncodeAll(frames)))
       case AbortSent => true
       case Ended(_) => w.buffer.None?
  }

  ghost predicate TasksOk(s: State, T: Millis) {
    && |s.tasks| <= 1
    && (s.inProgress <==> s.tasks != [])
    && s.h.attempts == s.rewriteCount + |s.tasks|
    && (s.tasks == [] ==> s.w.buffer.None? && s.gate != HeldByRewrite)
    && (s.tasks != [] ==> PhaseOk(s.w, s.h, s.gate, s.tasks[0], T))
  }

  function ClientMsgs(client: Client): multiset<Sent> {
    if client.Busy? && client.answer.None? then multiset{Sent(None, Write(Encode(client.p.frame)))} else multiset{}
  }

  function TaskMsgs(tasks: seq<Task>): multiset<Sent> {
    if tasks == [] then multiset{}
    else
      match tasks[0].phase
      case StartSent => multiset{Sent(Some(tasks[0].id), StartRewrite)}
      case FinishSent(_) => multiset{Sent(Some(tasks[0].id), FinishRewrite)}
      case AbortSent => multiset{Sent(Some(tasks[0].id), AbortRewrite)}
      case _ => multiset{}
  }

  ghost predicate QueueOk(s: State) {
    multiset(s.queue) == ClientMsgs(s.client) + TaskMsgs(s.tasks)
  }

  ghost predicate Inv(s: State, T: Millis) {
    LogOk(s.h, T) && DiskOk(s.w, s.h, T) && ClientOk(s, T) && BufferOk(s.w, s.h, T) && TasksOk(s, T) && QueueOk(s)
  }

  /** The invariant for a replay at any reading from the last one up to `T`. */
  ghost predicate Safe(s: State, T: Millis) {
    s.clock <= T && forall t :: s.clock <= t <= T ==> Inv(s, t)
  }

  /** A step that is allowed for a replay at `T` moves the clock on, and is allowed for any replay
      between the step and `T`. */
  lemma AllowedEarlier(s: State, a: Action, T: Millis)
    requires Allowed(s, a, T) && s.clock <= T
    ensures s.clock <= Next(s, a).clock <= T
    ensures forall t :: Next(s, a).clock <= t <= T ==> Allowed(s, a, t)
  {
    hide Refines, IsSnapshot, Holds, Wire, Command.AofFrame, HandleResult, Codec.Decodable, Sizes.ArgsFit,
         Rebuild.AllCountsFit, Encode, EncodeAll, Live, FramesOf, Told, Fold, Logged;
  }

  // ---- clock and memory ----

  lemma SameLater(a: Keyspace, b: Keyspace, t: Millis, later: Millis)
    requires SameLive(a, b, t) && t <= later
    ensures SameLive(a, b, later)
  {
    hide Live;
    LiveLater(a, t, later);
    LiveLater(b, t, later);
  }

  /** A write on the stored entries moves the live view as it moves the plain map. */
  lemma WriteOnStore(m: Keyspace, v: Keyspace, c: Command, clock: Millis, at: Millis, after: Keyspace, r: Frame)
    requires SameLive(m, v, clock) && clock <= at && Refines(m, c, at, after, r)
    ensures SameLive(after, Step(v, c, at).db, at)
    ensures r.Error? <==> Step(v, c, at).reply.Error?
  {
    hide Exec, ReplyMatches, Live;
    SameLater(m, v, clock, at);
    Listings.SameRefusals(m, c, at, r);
    LiveIsFresh(after, at);
    LiveIsFresh(Step(v, c, at).db, at);
  }

  /** A failed write leaves the view alone. */
  lemma FailedWriteChangesNothing(v: Keyspace, c: Command, at: Millis, T: Millis)
    requires WriteOk(c, at, T) && Step(v, c, at).reply.Error?
    ensures SameLive(Step(v, c, at).db, v, at)
  {
    hide Exec, Codec.Decodable, BulkResponseFits, Live;
    ErrorsChangeNothing(c, Live(v, at), at);
    LiveLater(v, at, at);
  }

  /** Restoring the saved entries takes the write back. */
  lemma RollbackRestores(before: Keyspace, mem: Keyspace, p: LogWrite, saved: Snapshot, v: Keyspace, clock: Millis)
    requires IsSnapshot(saved, p.c.MutatedKeys(), before) && p.at <= clock
    requires SameLive(before, v, clock) && SameLive(mem, WriteStep(v, p), clock)
    ensures SameLive(Restored(mem, saved), v, clock)
  {
    hide Exec, IsSnapshot, Restored, Live;
    OnlyMutatedKeysChange(p.c, Live(v, p.at), p.at);
    OutsideLater(Live(v, p.at), WriteStep(v, p), p.c.MutatedKeys(), clock);
    LiveLater(v, p.at, clock);
    RestoreUndoesLive(before, mem, p.c.MutatedKeys(), saved, clock);
  }

  lemma OutsideLater(a: Keyspace, b: Keyspace, keys: seq<Bytes>, t: Millis)
    requires SameOutside(a, b, keys)
    ensures SameOutside(Live(a, t), Live(b, t), keys)
  {
    forall k | k !in keys
      ensures Lookup(Live(a, t), k) == Lookup(Live(b, t), k)
    {
      assert Lookup(a, k) == Lookup(b, k);
    }
  }

  // ---- views ----

  lemma {:induction false} KeyDeadlinesStaySmall(c: Command, cur: Option<Entry>, at: Millis)
    requires Keyed(c) && !Codec.HasHugeDeadline(c)
    requires cur.Some? && cur.value.expiresAt.Some? ==> cur.value.expiresAt.value <= MAX_EXPIRE_AT_MS
    ensures var e := KeyExec(c, cur, at).entry;
      e.Some? && e.value.expiresAt.Some? ==> e.value.expiresAt.value <= MAX_EXPIRE_AT_MS
  {
    hide ParseI64, Encode, Popped, Reverse, WithFields, RemovedFields, AddedFields, BulkResponseFits, Remaining, DecInt,
         Slice, SomeOrder, Listing, Bounded;
  }

  lemma DeadlinesStaySmall(c: Command, m: Keyspace, at: Millis)
    requires SmallDeadlines(m) && !Codec.HasHugeDeadline(c)
    ensures SmallDeadlines(Exec(c, m, at).db)
  {
    hide KeyExec, Codec.HasHugeDeadline, Bounded;
    if Keyed(c) {
      KeyDeadlinesStaySmall(c, Lookup(m, c.key), at);
    } else if c.Del? {
      DelAllIs(m, c.keys);
    } else if c.MSet? {
      SetAllKeys(m, c.pairs);
    }
  }

  lemma LiveKeepsView(v: Keyspace, t: Millis)
    requires ViewOk(v)
    ensures ViewOk(Live(v, t))
  {
    hide Sizes.ValueFits;
  }

  lemma WriteKeepsView(v: Keyspace, p: LogWrite, T: Millis)
    requires ViewOk(v) && WriteOk(p.c, p.at, T)
    ensures ViewOk(WriteStep(v, p))
  {
    hide Exec, Codec.Decodable, Sizes.ArgsFit, Codec.HasHugeDeadline, Sizes.Sane, SmallDeadlines, Live;
    LiveKeepsView(v, p.at);
    LiveIsFresh(v, p.at);
    Sizes.ExecKeepsSane(p.c, Live(v, p.at), p.at);
    DeadlinesStaySmall(p.c, Live(v, p.at), p.at);
  }

  // ---- lists of writes ----

  lemma FoldSnoc(ps: seq<LogWrite>, p: LogWrite, v: Keyspace)
    ensures Fold(ps + [p], v) == WriteStep(Fold(ps, v), p)
    ensures LogFrames(ps + [p]) == LogFrames(ps) + [p.frame]
  {
    hide Step;
    assert AsRun(ps + [p]) == AsRun(ps) + [(p.c, p.at)];
    RunDbSnoc(AsRun(ps), p.c, p.at, v);
  }

  lemma FoldAppend(a: seq<LogWrite>, b: seq<LogWrite>, v: Keyspace)
    ensures Fold(a + b, v) == Fold(b, Fold(a, v))
    ensures LogFrames(a + b) == LogFrames(a) + LogFrames(b)
  {
    hide Step;
    assert AsRun(a + b) == AsRun(a) + AsRun(b);
    RunDbAppend(AsRun(a), AsRun(b), v);
  }

  lemma FoldNone(v: Keyspace)
    ensures Fold([], v) == v && LogFrames([]) == []
  {
    assert AsRun([]) == [];
  }

  // ---- logs ----

  /** The frame of a pending write extends the frames before it by that write. */
  lemma Grows(fs: seq<Frame>, from: Keyspace, p: LogWrite, v: Keyspace, T: Millis)
    requires AllWire(fs) && Replayed(fs, from, T) == Some(Live(v, T)) && Pending(p, v, T) && ViewOk(v)
    ensures AllWire(fs + [p.frame]) && Replayed(fs + [p.frame], from, T) == Some(Live(WriteStep(v, p), T))
    ensures ViewOk(WriteStep(v, p))
    ensures EncodeAll(fs + [p.frame]) == EncodeAll(fs) + Encode(p.frame)
    ensures Encodings(fs + [p.frame]) == Encodings(fs) + [Encode(p.frame)]
  {
    hide Step, Codec.Decodable, Sizes.ArgsFit, Codec.HasHugeDeadline, Sizes.Sane, SmallDeadlines, Replayed, Wire, Live, Reaches,
         Encode, Command.AofFrame;
    WriteKeepsView(v, p, T);
    LoggedWriteReplays(p.c, p.at, p.frame, v, T, T);
    ReplayedAppend(fs, [p.frame], from, T);
    EncodeAllSnoc(fs, p.frame);
  }

  lemma LogJoins(fs: seq<Frame>, v: Keyspace, more: seq<Frame>, v': Keyspace, T: Millis)
    requires LogMeans(fs, v, T) && AllWire(more) && Replayed(more, v, T) == Some(v')
    ensures LogMeans(fs + more, v', T)
    ensures EncodeAll(fs + more) == EncodeAll(fs) + EncodeAll(more)
  {
    hide Replayed, Wire, Encode;
    ReplayedAppend(fs, more, map[], T);
    EncodeAllAppend(fs, more);
  }

  /** A log followed by pending writes means the fold of the writes. */
  lemma {:induction false} ChainMeans(firm: seq<Frame>, ps: seq<LogWrite>, v: Keyspace, n: nat, T: Millis)
    requires LogMeans(firm, Live(v, T), T) && ViewOk(v) && AllPending(ps, v, T) && n <= |ps|
    ensures LogMeans(firm + LogFrames(ps[..n]), Live(Fold(ps[..n], v), T), T) && ViewOk(Fold(ps[..n], v))
  {
    hide Replayed, AllWire, ViewOk, Pending, Live, Fold;
    if n == 0 {
      assert ps[..0] == [];
      FoldNone(v);
      assert firm + [] == firm;
    } else {
      ChainMeans(firm, ps, v, n - 1, T);
      assert ps[..n] == ps[..n - 1] + [ps[n - 1]];
      FoldSnoc(ps[..n - 1], ps[n - 1], v);
      Grows(firm + LogFrames(ps[..n - 1]), map[], ps[n - 1], Fold(ps[..n - 1], v), T);
      assert (firm + LogFrames(ps[..n - 1])) + [ps[n - 1].frame] == firm + LogFrames(ps[..n]);
    }
  }

  /** The whole log means what is committed. */
  lemma LogMeansCommitted(h: History, T: Millis)
    requires LogOk(h, T)
    ensures LogMeans(Logged(h), Live(Committed(h), T), T) && ViewOk(Committed(h))
    ensures EncodeAll(h.firm) <= EncodeAll(Logged(h))
  {
    hide LogMeans, ViewOk, AllPending, Live, Fold, EncodeAll;
    ChainMeans(h.firm, h.loose, FirmView(h), |h.loose|, T);
    assert h.loose[..|h.loose|] == h.loose;
    EncodeAllAppend(h.firm, LogFrames(h.loose));
  }

  lemma {:induction false} FlattenEncodings(fs: seq<Frame>)
    ensures Flatten(Encodings(fs)) == EncodeAll(fs)
  {
    hide Encode;
    if fs != [] {
      assert Encodings(fs)[1..] == Encodings(fs[1..]);
      FlattenEncodings(fs[1..]);
    }
  }
}
