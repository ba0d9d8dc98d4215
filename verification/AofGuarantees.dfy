/** What the append-only file promises, over every run with any number of crashes and restarts: the log
    is the memory, a crash loses nothing that was acknowledged, and rewrites never run into each other. */
module AofGuarantees {
  import opened Base
  import opened Limits
  import opened Frames
  import opened Parser
  import opened Blanks
  import opened RoundTrip
  import opened Commands
  import opened Semantics
  import opened Laws
  import opened Replay
  import opened ReplayReads
  import opened LogRuns
  import opened Recovery
  import opened Database
  import opened AofDisk
  import opened AofMachine
  import opened AofInvariant
  import opened AofSafety
  import opened AofCrashes
  import Codec
  import Rebuild
  import Requests
  import Sizes
  import SnapshotFile

  // ---- runs ----

  /** The file is the log, and its firm part is durable. */
  predicate OnDisk(f: File, h: History) {
    f.bytes == EncodeAll(Logged(h)) && f.lost.None? && |EncodeAll(h.firm)| <= f.synced <= |f.bytes|
  }

  /** A server after start-up: the log is on disk, and at any reading up to `T` it replays to what is
      live in memory. */
  ghost predicate Starts(s: State, T: Millis) {
    && s.queue == [] && s.client.Idle? && s.gate.Open? && s.tasks == [] && !s.inProgress
    && s.rewriteCount == s.h.attempts == 0
    && s.w == WriterState(s.w.disk, |EncodeAll(Logged(s.h))|, false, None, false)
    && OnDisk(s.w.disk.active, s.h) && !s.h.damaged
    && s.clock <= T && SameLive(s.mem, Committed(s.h), s.clock)
    && forall t :: s.clock <= t <= T ==> LogOk(s.h, t)
  }

  /** A step of the program, or the end of the process with the start-up after it: the start-up finds the
      disk `found`, and its replay at `now` fills the store with `mem` and keeps `kept` of the log. */
  datatype Event =
    | Stepped(a: Action)
    | Restarted(found: Disk, now: Millis, mem: Keyspace, applied: nat, kept: Bytes)

  /** After a power loss the log is durable, and no rename is open any more. */
  ghost predicate PowerLost(s: State, found: Disk, now: Millis) {
    && s.w.disk.previous == []
    && found == Disk(Synced(found.active.bytes), [], found.temp)
    && exists left :: CanLeave(s, left) && Finds(left, found.active.bytes, s.clock, now)
  }

  /** A killed process leaves every file and every rename as it is, durable or not. No cut of the log may
      wait for its sync: one does between a cut and its sync, and after a rollback whose re-sync failed. */
  ghost predicate Killed(s: State, found: Disk) {
    ReachesDisk(s, found) && found.active.lost.None?
  }

  /** Start-up syncs what it cuts, and nothing else. */
  function StartedOn(found: Disk, kept: Bytes): Disk {
    if kept == found.active.bytes then found else found.(active := Synced(kept))
  }

  function StartedWriter(found: Disk, kept: Bytes): WriterState {
    WriterState(StartedOn(found, kept), |kept|, false, None, false)
  }

  /** The writes that are in the log and were not acknowledged. */
  function Held(h: History): seq<LogWrite> {
    h.pre + h.loose
  }

  function LogOnly(acked: Keyspace, pre: seq<LogWrite>, firm: seq<Frame>, loose: seq<LogWrite>): History {
    History(0, acked, pre, firm, loose, None, false, 0, [], map[], [])
  }

  /** What is in the log after start-up: if the kept file is durable, so are all its writes. */
  function Carried(s: State, found: Disk, kept: Bytes): History {
    var image := found.active.bytes;
    if !Explained(s, image) then s.h
    else if kept == image && found.active.synced < |image| && Torn(s, image) then
      LogOnly(s.h.acked, s.h.pre, s.h.firm, Chain(s)[..KeptCount(s, image)])
    else LogOnly(s.h.acked, KeptWrites(s, image), KeptFrames(s, image), [])
  }

  /** The server after its start-up: a writer on the kept file, nothing under way. */
  function Reborn(s: State, found: Disk, now: Millis, mem: Keyspace, kept: Bytes): State {
    State(StartedWriter(found, kept), [], mem, now, Idle, Open, [], false, 0, Carried(s, found, kept))
  }

  ghost predicate Follows(s: State, e: Event, s': State, T: Millis) {
    match e
    case Stepped(a) => Allowed(s, a, T) && s' == Next(s, a)
    case Restarted(found, now, mem, applied, kept) =>
      && (PowerLost(s, found, now) || Killed(s, found)) && s.clock <= now <= T
      && Replays(found.active.bytes, kept, Live(mem, now), applied, now)
      && s' == Reborn(s, found, now, mem, kept)
  }

  /** A run: any interleaving of steps of clients, sweeper, rewrites and writer, with any failures, and
      any number of power losses, killed processes and restarts. */
  ghost predicate IsRun(states: seq<State>, events: seq<Event>, T: Millis) {
    && |states| == |events| + 1
    && Starts(states[0], T)
    && forall i :: 0 <= i < |events| ==> Follows(states[i], events[i], states[i + 1], T)
  }

  /** The state at the end of a run. */
  ghost predicate Reached(s: State, T: Millis) {
    exists states, events :: IsRun(states, events, T) && states[|events|] == s
  }

  lemma StartsSafe(s: State, T: Millis)
    requires Starts(s, T)
    ensures Safe(s, T)
  {
    hide LogOk, SameLive, EncodeAll, Committed, Logged, Within, Pending;
    forall t | s.clock <= t <= T
      ensures Inv(s, t)
    {
    }
  }

  // ---- restarts ----

  /** What start-up can find is explained, whether the power was lost or the process was killed. */
  lemma FoundIsExplained(s: State, found: Disk, now: Millis, T: Millis)
    requires Safe(s, T) && (PowerLost(s, found, now) || Killed(s, found)) && s.clock <= now <= T
    ensures FileExplained(s, found.active) && Explained(s, found.active.bytes) && found.active.lost.None?
  {
    hide Inv, EncodeAll, ChainBytes, Finishing, ReachesDisk, CanLeave, Finds;
    if Killed(s, found) {
      ReachedIsExplained(s, found, s.clock);
      FileLeaves(s, found.active, found.active.bytes);
    } else {
      var left :| CanLeave(s, left) && Finds(left, found.active.bytes, s.clock, now);
      CrashExplained(s, left, s.clock);
      PartlyCutIsExplained(s, left, found.active.bytes, now, T);
    }
  }

  /** After the end of the process at any moment, start-up makes a start state of whatever it finds: its
      log holds the acknowledged writes, the durable ones and the first few of the others, and its store
      shows the same. */
  lemma RestartStarts(s: State, e: Event, s': State, T: Millis)
    requires Safe(s, T) && e.Restarted? && Follows(s, e, s', T)
    ensures Starts(s', T)
    ensures s'.h.acked == s.h.acked && s.h.pre <= Held(s'.h) <= Unacked(s)
  {
    hide Inv, LogOk, PowerLost, Killed, Replays, Live, Explained, FileExplained, KeptFrames, KeptView, KeptWrites, RecoversTo,
         Carried, OnDisk, EncodeAll, Committed, Logged, Held, Unacked, Enabled, Allowed, Next;
    var image := e.found.active.bytes;
    FoundIsExplained(s, e.found, e.now, T);
    ExplainedRecoversFrom(s, image, T);
    var fs, v := KeptFrames(s, image), KeptView(s, image);
    assert RecoversTo(image, fs, v, e.now);
    ReplayKeepsFrames(image, fs, v, e.now, e.kept, Live(e.mem, e.now), e.applied);
    KeptAreUnacked(s, image);
    CarriedLog(s, e.found, e.kept);
    forall t | e.now <= t <= T
      ensures LogOk(s'.h, t)
    {
      assert Inv(s, t) && RecoversTo(image, fs, v, t);
      CarriedLogOk(s, e.found, e.kept, t);
    }
  }

  /** The new log is the kept file, durably in its firm part, and holds the kept writes. */
  lemma CarriedLog(s: State, found: Disk, kept: Bytes)
    requires Explained(s, found.active.bytes) && FileExplained(s, found.active) && found.active.lost.None?
    requires kept == EncodeAll(KeptFrames(s, found.active.bytes))
    ensures var h := Carried(s, found, kept);
      && h.acked == s.h.acked && h.attempts == 0 && !h.damaged
      && Held(h) == KeptWrites(s, found.active.bytes) && Committed(h) == KeptView(s, found.active.bytes)
      && kept == EncodeAll(Logged(h)) && OnDisk(StartedOn(found, kept).active, h)
  {
    hide EncodeAll, Fold, Chain, Finishing, KeptCount, ChainBytes;
    var h := Carried(s, found, kept);
    FoldAppend(h.pre, h.loose, h.acked);
    assert Logged(h) == KeptFrames(s, found.active.bytes);
  }

  lemma CarriedLogOk(s: State, found: Disk, kept: Bytes, t: Millis)
    requires Inv(s, t) && Explained(s, found.active.bytes)
    requires RecoversTo(found.active.bytes, KeptFrames(s, found.active.bytes), KeptView(s, found.active.bytes), t)
    ensures LogOk(Carried(s, found, kept), t)
  {
    hide DiskOk, ClientOk, BufferOk, TasksOk, QueueOk, LogMeans, ViewOk, Pending, Load, Parse, EncodeAll, Chain, Live, Fold, Torn,
         Finishing, KeptCount;
    var image := found.active.bytes;
    ChainIsPending(s, t);
    if Torn(s, image) {
      var n := KeptCount(s, image);
      forall i | 0 <= i < n
        ensures Chain(s)[..n][i] == Chain(s)[i] && Chain(s)[..n][..i] == Chain(s)[..i]
      {
      }
    }
  }

  /** A server with no log at all starts too. */
  lemma FreshServerStarts(now: Millis, temp: Option<File>, T: Millis)
    requires now <= T
    ensures var w := StartedWriter(Disk(Synced([]), [], temp), []);
      Starts(State(w, [], map[], now, Idle, Open, [], false, 0, LogOnly(map[], [], [], [])), T)
  {
    hide Pending, Fold;
    var h := LogOnly(map[], [], [], []);
    assert Logged(h) == [] && EncodeAll([]) == [];
    FoldNone(map[]);
    forall t | now <= t <= T
      ensures LogOk(h, t)
    {
    }
  }

  // ---- every state of every run ----

  lemma {:induction false} RunIsSafe(states: seq<State>, events: seq<Event>, T: Millis, i: nat)
    requires IsRun(states, events, T) && i < |states|
    ensures Safe(states[i], T)
  {
    hide Safe, Starts, Enabled, Allowed, Next, PowerLost, Killed, Replays, Reborn, Live;
    if i == 0 {
      StartsSafe(states[0], T);
    } else {
      var s, e, s' := states[i - 1], events[i - 1], states[i];
      RunIsSafe(states, events, T, i - 1);
      assert Follows(s, e, s', T);
      if e.Restarted? {
        RestartStarts(s, e, s', T);
        StartsSafe(s', T);
      } else {
        StepStaysSafe(s, e.a, T);
      }
    }
  }

  lemma ReachedIsSafe(s: State, T: Millis)
    requires Reached(s, T)
    ensures Safe(s, T) && Inv(s, s.clock)
  {
    hide Starts, Follows, Inv;
    var states, events :| IsRun(states, events, T) && states[|events|] == s;
    RunIsSafe(states, events, T, |events|);
  }

  // ---- the assumptions on a step ----

  /** A request that came in at least 22 bytes below 64 MiB can always be served, unless its deadline is
      beyond what can be logged or it needs a key that expires before `T`. */
  lemma ShortRequestsAreAllowed(s: State, a: Action, buf: Bytes, T: Millis)
    requires a.ClientApplies? && Enabled(s, a) && a.at <= T
    requires Parse(buf, true).Got? && FromFrame(Parse(buf, true).frame, a.at) == Ok(a.c)
    requires |SkipBlanks(buf)| - |Parse(buf, true).rest| <= MAX_BUFFERED_FRAME_BYTES - 22
    ensures Allowed(s, a, T) <==> !Codec.HasHugeDeadline(a.c) && (!a.reply.Error? ==> Reaches(s.mem, a.c, a.at, T))
  {
    hide Parse, FromFrame, SkipBlanks, Wire, Command.AofFrame, Refines, IsSnapshot, Reaches, Codec.Decodable,
         Sizes.ArgsFit, Codec.HasHugeDeadline, Command.MutatedKeys;
    Requests.ShortRequestsAreLoggable(buf, a.c, a.at, a.at);
    Codec.FromFrameYieldsDecodable(Parse(buf, true).frame, a.at);
    Sizes.ReceivedFits(buf);
    Sizes.DecodedFits(Parse(buf, true).frame, a.at);
  }

  /** Snapshots of lists of at most 1048574 elements and hashes of at most 524287 fields can always be
      written, whatever their frames. */
  lemma ShortSnapshotsAreAllowed(s: State, a: Action, T: Millis)
    requires a.TaskWrites? && Enabled(s, a) && a.at <= T
    requires forall j :: 0 <= j < |s.tasks[a.i].phase.entries| ==>
      var v := s.tasks[a.i].phase.entries[j].1.value;
      (v.List? ==> |v.items| <= MAX_ARRAY_LEN - 2) && (v.Hash? ==> |v.fields| <= MAX_ARRAY_LEN / 2 - 1)
    ensures Allowed(s, a, T)
  {
    hide SnapshotFile.EntryFrames, Rebuild.CountsFit;
    var entries := s.tasks[a.i].phase.entries;
    forall j | 0 <= j < |entries|
      ensures Rebuild.CountsFit(entries[j].0, entries[j].1, a.clocks[j])
    {
      Rebuild.ShortCountsFit(entries[j].0, entries[j].1, a.clocks[j]);
    }
  }

  // ---- the log is the memory ----

  /** Whenever no client is inside a write and no failed append is left behind, replaying the log, now or
      at any later reading, gives exactly what is live in memory then and keeps the whole file, whatever
      rewrites are doing and whether or not their renames are durable. */
  lemma LogIsMemory(s: State, t: Millis, T: Millis)
    requires Reached(s, T) && s.client.Idle? && !s.h.damaged && s.clock <= t <= T
    ensures Load(s.w.disk.active.bytes, map[], t) == Loaded(Live(s.mem, t), |Logged(s.h)|, [])
  {
    hide Reached, Load, Live, ViewOk, Pending, Within, EncodeAll, Wire, Replayed, BufferOk, TasksOk, QueueOk, Committed, Logged,
         LogOk;
    ReachedIsSafe(s, T);
    assert Inv(s, t);
    LogMeansCommitted(s.h, t);
    SameLater(s.mem, Committed(s.h), s.clock, t);
    LoadWhole(Logged(s.h), map[], t);
  }

  /** While a rewrite buffers, the log is the log at its start followed by the buffered frames. */
  lemma BufferIsTheDifference(s: State, T: Millis)
    requires Reached(s, T) && s.w.buffer.Some? && !s.h.damaged
    ensures s.w.disk.active.bytes == EncodeAll(s.h.startLog) + Flatten(s.w.buffer.value.frames)
  {
    hide Reached, LogOk, ClientOk, TasksOk, QueueOk, Pending, Within, EncodeAll, Encodings, Replayed, AllWire, Live, Committed,
         Logged;
    ReachedIsSafe(s, T);
    FlattenEncodings(s.h.sinceStart);
    EncodeAllAppend(s.h.startLog, s.h.sinceStart);
  }

  // ---- what was acknowledged ----

  /** The writer has told the client that its write succeeded. */
  predicate WasTold(s: State) {
    s.client.Busy? && s.client.answer == Some(true)
  }

  /** The client answers its caller: the write, and all writes before it, are acknowledged. */
  predicate Acknowledges(s: State, e: Event) {
    e.Stepped? && e.a.ClientEnds? && WasTold(s)
  }

  /** The writes acknowledged up to step `i`, in order. */
  function Answered(states: seq<State>, events: seq<Event>, i: nat): seq<LogWrite>
    requires i <= |events| < |states|
  {
    if i == 0 then []
    else if Acknowledges(states[i - 1], events[i - 1]) then Answered(states, events, i - 1) + Held(states[i - 1].h)
    else Answered(states, events, i - 1)
  }

  /** How many restarts there were since the last acknowledgement, with the writes held at the start. */
  function RestartsSince(states: seq<State>, events: seq<Event>, i: nat): nat
    requires i <= |events| < |states|
  {
    if i == 0 then |Held(states[0].h)|
    else if Acknowledges(states[i - 1], events[i - 1]) then 0
    else RestartsSince(states, events, i - 1) + (if events[i - 1].Restarted? then 1 else 0)
  }

  /** What one step does to the writes of the log: an acknowledgement takes all of them, the writer adds
      the write of the client that waits, and nothing else changes them. */
  ghost predicate Moves(s: State, t: State, acknowledges: bool) {
    if acknowledges then
      t.h.acked == Fold(Held(s.h), s.h.acked) && Held(t.h) == []
      && s.client.Busy? && Held(s.h) != [] && Held(s.h)[|Held(s.h)| - 1] == s.client.p
    else
      && t.h.acked == s.h.acked
      && if WasTold(t) && !WasTold(s) then s.client.Busy? && Held(t.h) == Held(s.h) + [s.client.p]
         else Held(t.h) == Held(s.h) && (WasTold(s) ==> WasTold(t))
  }

  lemma StepMoves(s: State, a: Action, T: Millis)
    requires Inv(s, T) && Enabled(s, a)
    ensures Moves(s, Next(s, a), Acknowledges(s, Stepped(a)))
  {
    hide LogOk, DiskOk, BufferOk, TasksOk, QueueOk, Served, Sensible, Refines, IsSnapshot, Pending, WriteStep, SameLive, Live,
         Restored, Encode, EncodeAll, Holds, InPhase, SnapshotFile.AreSnapshotFrames, Flatten, Fold,
         Command.AofFrame, Command.MutatedKeys, Command.IsWrite;
    if a.ClientEnds? {
      FoldAppend(s.h.pre, s.h.loose, s.h.acked);
      assert s.h.loose == [] ==> Held(s.h) == s.h.pre;
    } else if a.WriterHandles? {
      ServedMoves(s, a.x, T);
    }
  }

  lemma ServedMoves(s: State, x: Choice, T: Millis)
    requires ClientOk(s, T) && QueueOk(s) && s.queue != [] && Sensible(s.w, s.queue[0].m, x)
    ensures Moves(s, Served(s, x), false)
  {
    hide ClientOk, QueueOk, HandleResult, Sensible, FramesOf, Told, Fold, Logged, Replaces, Encode, Committed,
         ClientMsgs, TaskMsgs, LogMeans;
    HeadIs(s);
    var t := Served(s, x);
    if s.queue[0].m.Write? {
      assert WasTold(t) ==> Held(t.h) == Held(s.h) + [s.client.p];
    }
  }

  /** What the guarantees call acknowledged is the fold of exactly the writes in the log at each
      acknowledgement, the last of which is the client's own. */
  lemma {:induction false} AckedIsTheFold(states: seq<State>, events: seq<Event>, T: Millis, i: nat)
    requires IsRun(states, events, T) && i < |states|
    ensures states[i].h.acked == Fold(Answered(states, events, i), states[0].h.acked)
    ensures i > 0 && Acknowledges(states[i - 1], events[i - 1]) ==>
      var held := Held(states[i - 1].h); held != [] && held[|held| - 1] == states[i - 1].client.p
  {
    hide Inv, Safe, Starts, Follows, Fold, Held, Acknowledges, Unacked;
    var start := states[0].h.acked;
    if i == 0 {
      FoldNone(start);
    } else {
      var s, e := states[i - 1], events[i - 1];
      AckedIsTheFold(states, events, T, i - 1);
      RunMoves(states, events, T, i - 1);
      FoldAppend(Answered(states, events, i - 1), Held(s.h), start);
    }
  }

  lemma RunMoves(states: seq<State>, events: seq<Event>, T: Millis, i: nat)
    requires IsRun(states, events, T) && i < |events|
    ensures events[i].Stepped? ==> Moves(states[i], states[i + 1], Acknowledges(states[i], events[i]))
    ensures events[i].Restarted? ==>
      && !Acknowledges(states[i], events[i]) && !WasTold(states[i + 1])
      && states[i + 1].h.acked == states[i].h.acked && states[i].h.pre <= Held(states[i + 1].h) <= Unacked(states[i])
  {
    hide Inv, Starts, Moves, Held, Unacked, Enabled, Next, WriteOk, Wire, Reaches, Rebuild.AllCountsFit, HandleResult,
         Command.AofFrame, PowerLost, Killed, Replays, Carried, Live;
    RunIsSafe(states, events, T, i);
    assert Follows(states[i], events[i], states[i + 1], T);
    if events[i].Stepped? {
      assert Inv(states[i], states[i].clock);
      StepMoves(states[i], events[i].a, states[i].clock);
    } else {
      RestartStarts(states[i], events[i], states[i + 1], T);
    }
  }

  /** The log never holds more unacknowledged writes than there were restarts since the last
      acknowledgement, and the one whose client is just being told. */
  lemma {:induction false} UnackedAreFew(states: seq<State>, events: seq<Event>, T: Millis, i: nat)
    requires IsRun(states, events, T) && i < |states|
    ensures |Held(states[i].h)| <= RestartsSince(states, events, i) + (if WasTold(states[i]) then 1 else 0)
  {
    hide LogOk, DiskOk, BufferOk, TasksOk, QueueOk, Pending, SameLive, IsSnapshot, WriteStep, Committed, Starts, Follows, Fold,
         Acknowledges, Held;
    if i > 0 {
      var s := states[i - 1];
      UnackedAreFew(states, events, T, i - 1);
      RunMoves(states, events, T, i - 1);
      RunIsSafe(states, events, T, i - 1);
      assert Inv(s, s.clock);
      assert Unacked(s) == Held(s.h) + (if Extra(s).Some? then [Extra(s).value] else []) by { HeldFirst(s); }
    }
  }

  lemma HeldFirst(s: State)
    ensures Unacked(s) == Held(s.h) + (if Extra(s).Some? then [Extra(s).value] else [])
  {
    hide Extra;
  }

  // ---- crashes ----

  /** Between two steps, if every rename is durable, whatever a power loss leaves of the disk replays to
      all acknowledged writes and the first few of the others, at whatever reading the replay takes place. */
  lemma CrashBetweenSteps(s: State, image: Bytes, T: Millis)
    requires Reached(s, T) && s.w.disk.previous == [] && CrashImage(image, s.w.disk)
    ensures CrashSafe(s, image, T)
  {
    hide Reached, Safe, CrashSafe, CrashImage, InsideStep;
    ReachedIsSafe(s, T);
    LeftIsSafe(s, s.w.disk, image, T);
  }

  /** Also in the middle of a message: after every single file operation of an append, a rollback or
      the end of a rewrite, up to the rename and after it. */
  lemma CrashInsideAStep(s: State, x: Choice, d: Disk, image: Bytes, T: Millis)
    requires Reached(s, T) && s.w.disk.previous == [] && InsideStep(s, x, d) && CrashImage(image, d)
    ensures CrashSafe(s, image, T)
  {
    hide Reached, Safe, CrashSafe, CrashImage, InsideStep;
    ReachedIsSafe(s, T);
    LeftIsSafe(s, d, image, T);
  }

  /** Every restart of a run, after a power loss or a killed process, is a start; its log holds, and its
      store shows, all acknowledged and all durable writes and the first few of the others. */
  lemma RestartsKeepWhatWasAcknowledged(s: State, e: Event, s': State, T: Millis)
    requires Reached(s, T) && e.Restarted? && Follows(s, e, s', T)
    ensures Starts(s', T)
    ensures s.h.pre <= Held(s'.h) <= Unacked(s)
    ensures SameLive(s'.mem, Fold(Held(s'.h), s.h.acked), s'.clock)
  {
    hide Reached, Safe, Follows, LogOk, OnDisk, Fold, Unacked, Live;
    ReachedIsSafe(s, T);
    RestartStarts(s, e, s', T);
    FoldAppend(s'.h.pre, s'.h.loose, s.h.acked);
  }

  /** A killed process that left no cut unsynced loses nothing: its store comes back with every write that
      was in the log, and at most the one a client waits for or whose append failed. */
  lemma KilledProcessLosesNothing(s: State, e: Event, s': State, T: Millis)
    requires Reached(s, T) && e.Restarted? && Follows(s, e, s', T) && Killed(s, e.found)
    ensures exists ws :: Held(s.h) <= ws <= Unacked(s) && SameLive(s'.mem, Fold(ws, s.h.acked), s'.clock)
  {
    hide Reached, Inv, Starts, PowerLost, ReachesDisk, FileExplained, Explained, RecoversTo, RecoversFrom, KeptFrames,
         KeptWrites, Replays, Fold, Live, EncodeAll, Logged, Finishing, Unacked, Chain, Extra, Carried, Enabled, Next,
         Allowed;
    ReachedIsSafe(s, T);
    assert Inv(s, e.now);
    var found, now := e.found, e.now;
    var image := found.active.bytes;
    FoundIsExplained(s, found, now, T);
    ReachedIsExplained(s, found, now);
    KeptAreUnacked(s, image);
    if EncodeAll(Logged(s.h)) <= image {
      ExplainedRecovers(s, image, now);
      ReplayKeepsFrames(image, KeptFrames(s, image), KeptView(s, image), now, e.kept, Live(e.mem, now), e.applied);
      WholeLogIsKept(s, image);
      assert Held(s.h) <= KeptWrites(s, image) <= Unacked(s);
    } else {
      InvParts(s, now);
      RebuiltRecovers(s, now);
      ReplayKeepsFrames(image, RebuiltFrames(s), Committed(s.h), now, e.kept, Live(e.mem, now), e.applied);
      FoldAppend(s.h.pre, s.h.loose, s.h.acked);
      HeldFirst(s);
    }
  }

  /** Whatever is left on the disk, start-up can follow at any later reading. */
  lemma RestartIsPossible(s: State, found: Disk, now: Millis, T: Millis)
    requires Reached(s, T) && (PowerLost(s, found, now) || Killed(s, found)) && s.clock <= now <= T
    ensures exists e: Event, s' :: e.Restarted? && e.found == found && Follows(s, e, s', T)
  {
    hide Reached, Safe, Explained, PowerLost, Killed, KeptFrames, KeptView, AckedAndMore, Live, EncodeAll, FileExplained, Reborn,
         ViewOk, Load, Parse, SkipBlanks, Replayed, Wire, Steady;
    var image := found.active.bytes;
    ReachedIsSafe(s, T);
    FoundIsExplained(s, found, now, T);
    ExplainedRecoversFrom(s, image, T);
    var fs, v := KeptFrames(s, image), KeptView(s, image);
    assert RecoversTo(image, fs, v, now);
    ParseSkipsBlanks(image[|EncodeAll(fs)|..], true);
    LoadWhole(fs, map[], now);
    var e := Restarted(found, now, v, |fs|, EncodeAll(fs));
    assert Follows(s, e, Reborn(s, found, now, v, EncodeAll(fs)), T);
  }

  /** A process killed between the rename and the directory sync: start-up settles nothing, so a power loss
      may undo the rename together with what was acknowledged since. */
  lemma KilledAtTheRename(oldLog: Bytes, snapshot: Bytes, bytes: Bytes)
    ensures var found := Disk(Synced(snapshot), [Synced(oldLog)], None);
      var h := WriteResult(StartedWriter(found, snapshot), bytes, WriteChoice(|bytes|, true, true, true, true));
      && found in FinishResult(PlainRewrite(oldLog, snapshot), FinishChoice(true, 0, true, true, true, true, true, true)).trace
      && h.ok && h.after.disk.active == Synced(snapshot + bytes) && CrashImage(oldLog, h.after.disk)
  {
    var found := Disk(Synced(snapshot), [Synced(oldLog)], None);
    var trace := FinishResult(PlainRewrite(oldLog, snapshot), FinishChoice(true, 0, true, true, true, true, true, true)).trace;
    assert Buffered(PlainRewrite(oldLog, snapshot)) == [] && snapshot + [] == snapshot;
    assert trace[2] == found;
    assert bytes[..|bytes|] == bytes;
    assert Survives(oldLog, found.previous[0]);
  }

  // ---- rewrites exclude each other ----

  /** With no rewrite in progress there is no buffer and no rewrite message under way; the counters
      add up; a buffer belongs to the one rewrite in progress. */
  lemma RewritesExclude(s: State, T: Millis)
    requires Reached(s, T)
    ensures |s.tasks| == (if s.inProgress then 1 else 0)
    ensures s.h.attempts == s.rewriteCount + |s.tasks|
    ensures !s.inProgress ==> s.w.buffer.None? && forall m :: m in s.queue ==> m.m.Write?
    ensures s.w.buffer.Some? ==> s.inProgress && s.h.owner == s.tasks[0].id
    ensures forall m :: m in s.queue && m.task.Some? ==> s.inProgress && m.task.value == s.tasks[0].id
  {
    hide Reached, LogOk, DiskOk, ClientOk, BufferOk, LogMeans, SnapshotOf, Committed, Live, Encode, EncodeAll,
         ClientMsgs, TaskMsgs;
    ReachedIsSafe(s, T);
    ClientMsgsAre(s.client);
    TaskMsgsAre(s.tasks);
    forall m | m in s.queue
      ensures m in ClientMsgs(s.client) || m in TaskMsgs(s.tasks)
    {
      assert m in multiset(s.queue);
    }
  }

  /** The writer never refuses to start a rewrite; it takes up a rewrite's end only with that rewrite's
      own buffer; and a rewrite whose buffer overflowed ends without touching the log. */
  lemma RewritesAreServed(s: State, x: Choice, T: Millis)
    requires Reached(s, T) && Enabled(s, WriterHandles(x))
    ensures var r := HandleResult(s.w, s.queue[0].m, x);
      && (s.queue[0].m.StartRewrite? ==> r.ok)
      && (s.queue[0].m.FinishRewrite? && s.w.buffer.Some? ==> s.queue[0].task == Some(s.h.owner))
      && (s.queue[0].m.FinishRewrite? && s.w.buffer.None? ==> !r.ok && r.after == s.w)
  {
    hide Reached, Inv, FinishResult, WriteResult, TaskMsgs, TasksOk;
    ReachedIsSafe(s, T);
    RewritesExclude(s, T);
    InvParts(s, s.clock);
    HeadIs(s);
    if s.queue[0].m.StartRewrite? {
      ServesStart(s, x, s.clock);
    } else if s.queue[0].m.FinishRewrite? {
      TaskMsgPhase(s.tasks, s.queue[0]);
      if s.w.buffer.None? {
        RefusedWithoutBuffer(s.w, x.finish);
      }
    }
  }
}
