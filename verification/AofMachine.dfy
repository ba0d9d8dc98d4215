/** The append-only file as a protocol: clients write under the gate, one writer task serves a queue,
    and a rewrite buffers, snapshots under the same gate and renames (`src/server.rs`, `src/aof.rs`,
    the write gate of `src/db/mod.rs`). The fsync policy is `always`. */
module AofMachine {
  import opened Base
  import opened Frames
  import opened Commands
  import opened Semantics
  import opened SnapshotFile
  import opened Database
  import opened AofDisk
  import Codec

  // ---- the state ----

  /** A write with its clock reading and its log frame. */
  datatype LogWrite = LogWrite(c: Command, at: Millis, frame: Frame)

  /** A client inside the write branch: the write, the saved entries and what they were taken of, and
      the writer's answer once there is one. */
  datatype Client =
    | Idle
    | Busy(p: LogWrite, saved: Snapshot, before: Keyspace, answer: Option<bool>)

  datatype Gate = Open | HeldByClient | HeldByRewrite

  /** How far a rewrite task is. */
  datatype Phase =
    | AwaitsGate
    | StartSent
    | StartAnswered(ok: bool)
    | Writing(entries: seq<(Bytes, Entry)>)
    | FinishSent(frames: seq<Frame>)
    | AbortSent
    | Ended(ok: bool)

  datatype Task = Task(id: nat, phase: Phase)

  /** A message on the way to the writer; a rewrite's messages carry its number. */
  datatype Sent = Sent(task: Option<nat>, m: Message)

  /** What no part of the program stores; it only serves to state the invariants: how many rewrites were
      begun; what clients were told; the writes behind that in the log, first those known to be durable
      (`pre`, ending the frames `firm`), then those that are not (`loose`, left by killed processes); the
      one write whose append failed and whether it could not be cut off again; and where the present
      rewrite began. */
  datatype History = History(
    attempts: nat,
    acked: Keyspace,
    pre: seq<LogWrite>,
    firm: seq<Frame>,
    loose: seq<LogWrite>,
    doubtful: Option<LogWrite>,
    damaged: bool,
    owner: nat,
    startLog: seq<Frame>,
    startView: Keyspace,
    sinceStart: seq<Frame>)

  function AsRun(ps: seq<LogWrite>): (run: Run)
    ensures |run| == |ps|
  {
    seq(|ps|, i requires 0 <= i < |ps| => (ps[i].c, ps[i].at))
  }

  function LogFrames(ps: seq<LogWrite>): (fs: seq<Frame>)
    ensures |fs| == |ps|
  {
    seq(|ps|, i requires 0 <= i < |ps| => ps[i].frame)
  }

  /** The keyspace after the writes. */
  ghost function Fold(ps: seq<LogWrite>, m: Keyspace): Keyspace {
    RunDb(AsRun(ps), m)
  }

  /** What the durable part of the log means, and the whole of it. */
  ghost function FirmView(h: History): Keyspace {
    Fold(h.pre, h.acked)
  }

  ghost function Committed(h: History): Keyspace {
    Fold(h.loose, FirmView(h))
  }

  /** The frames of the log. */
  function Logged(h: History): seq<Frame> {
    h.firm + LogFrames(h.loose)
  }

  datatype State = State(
    w: WriterState, queue: seq<Sent>, mem: Keyspace, clock: Millis, client: Client, gate: Gate,
    tasks: seq<Task>, inProgress: bool, rewriteCount: nat, h: History)

  // ---- the steps ----

  datatype Action =
    | ClientApplies(c: Command, at: Millis, reply: Frame, saved: Snapshot, after: Keyspace)
    | ClientEnds
    | Reads(c: Command, at: Millis, reply: Frame)
    | Sweeps(at: Millis)
    | Schedules
    | TaskLocks(i: nat)
    | TaskSnapshots(i: nat, at: Millis, entries: seq<(Bytes, Entry)>)
    | TaskGivesUp(i: nat)
    | TaskWrites(i: nat, at: Millis, clocks: seq<Millis>, pieces: seq<seq<Frame>>)
    | TaskWriteFails(i: nat, temp: Option<File>)
    | TaskEnds(i: nat, temp: Option<File>)
    | WriterHandles(x: Choice)

  predicate InPhase(s: State, i: nat, phase: Phase) {
    i < |s.tasks| && s.tasks[i].phase == phase
  }

  /** When the program can take a step. */
  ghost predicate Enabled(s: State, a: Action) {
    match a
    case ClientApplies(c, at, reply, saved, after) =>
      && s.client.Idle? && s.gate.Open? && c.IsWrite() && s.clock <= at
      && IsSnapshot(saved, c.MutatedKeys(), s.mem)
      && Refines(s.mem, c, at, after, reply)
    case ClientEnds => s.client.Busy? && s.client.answer.Some?
    case Reads(c, at, reply) => !c.IsWrite() && s.clock <= at && Refines(s.mem, c, at, s.mem, reply)
    case Sweeps(at) => s.clock <= at
    case Schedules => !s.inProgress
    case TaskLocks(i) => InPhase(s, i, AwaitsGate) && s.gate.Open?
    case TaskSnapshots(i, at, entries) =>
      InPhase(s, i, StartAnswered(true)) && s.clock <= at && Holds(entries, Live(s.mem, at))
    case TaskGivesUp(i) => InPhase(s, i, StartAnswered(false))
    case TaskWrites(i, at, clocks, pieces) =>
      && i < |s.tasks| && s.tasks[i].phase.Writing? && s.clock <= at
      && |pieces| == |s.tasks[i].phase.entries| && AreSnapshotFrames(pieces, s.tasks[i].phase.entries, clocks)
      && forall j :: 0 <= j < |pieces| ==> clocks[j] <= at
    case TaskWriteFails(i, _) => i < |s.tasks| && s.tasks[i].phase.Writing?
    case TaskEnds(i, _) => i < |s.tasks| && s.tasks[i].phase.Ended?
    case WriterHandles(x) => s.queue != [] && Sensible(s.w, s.queue[0].m, x)
  }

  function Moved(s: State, i: nat, phase: Phase): State
    requires i < |s.tasks|
  {
    s.(tasks := s.tasks[i := Task(s.tasks[i].id, phase)])
  }

  /** The task with this number moves on. */
  function Told(tasks: seq<Task>, id: nat, phase: Phase): (r: seq<Task>)
    ensures |r| == |tasks|
  {
    seq(|tasks|, i requires 0 <= i < |tasks| => if tasks[i].id == id then Task(id, phase) else tasks[i])
  }

  /** The state after a step; a step that cannot be taken leaves everything as it is. */
  ghost function Next(s: State, a: Action): State {
    if !Enabled(s, a) then s
    else
    match a
    case ClientApplies(c, at, reply, saved, after) =>
      if reply.Error? then s.(mem := after, clock := at)
      else
        Codec.LoggedIffWrite(c, at);
        var p := LogWrite(c, at, c.AofFrame(at).value);
        s.(mem := after, clock := at, gate := HeldByClient,
           client := Busy(p, saved, s.mem, if s.w.failed then Some(false) else None),
           queue := if s.w.failed then s.queue else s.queue + [Sent(None, Write(Encode(p.frame)))])
    case ClientEnds =>
      if s.client.answer.value then s.(client := Idle, gate := Open, h := s.h.(acked := Committed(s.h), pre := [], loose := []))
      else s.(client := Idle, gate := Open, mem := Restored(s.mem, s.client.saved))
    case Reads(_, at, _) => s.(clock := at)
    case Sweeps(at) => s.(clock := at, mem := Live(s.mem, at))
    case Schedules =>
      s.(inProgress := true, tasks := s.tasks + [Task(s.h.attempts, AwaitsGate)], h := s.h.(attempts := s.h.attempts + 1))
    case TaskLocks(i) =>
      Moved(s, i, StartSent).(gate := HeldByRewrite, queue := s.queue + [Sent(Some(s.tasks[i].id), StartRewrite)])
    case TaskSnapshots(i, at, entries) => Moved(s, i, Writing(entries)).(gate := Open, clock := at)
    case TaskGivesUp(i) => Moved(s, i, Ended(false)).(gate := Open)
    case TaskWrites(i, at, clocks, pieces) =>
      var frames := Flatten(pieces);
      Moved(s, i, FinishSent(frames)).(
        clock := at,
        w := s.w.(disk := s.w.disk.(temp := Some(Synced(EncodeAll(frames))))),
        queue := s.queue + [Sent(Some(s.tasks[i].id), FinishRewrite)])
    case TaskWriteFails(i, temp) =>
      Moved(s, i, AbortSent).(
        w := s.w.(disk := s.w.disk.(temp := temp)),
        queue := s.queue + [Sent(Some(s.tasks[i].id), AbortRewrite)])
    case TaskEnds(i, temp) =>
      s.(tasks := s.tasks[..i] + s.tasks[i + 1..], inProgress := false, rewriteCount := s.rewriteCount + 1,
         w := s.w.(disk := s.w.disk.(temp := temp)))
    case WriterHandles(x) => Served(s, x)
  }

  /** The writer takes the next message. */
  ghost function Served(s: State, x: Choice): State
    requires s.queue != [] && Sensible(s.w, s.queue[0].m, x)
  {
    var Sent(task, m) := s.queue[0];
    var r := HandleResult(s.w, m, x);
    var t := s.(w := r.after, queue := s.queue[1..]);
    match m
    case Write(_) =>
      if s.client.Idle? then t
      else t.(client := s.client.(answer := Some(r.ok)), h := Recorded(s.h, s.client.p, r.ok, s.w.failed, x.write))
    case StartRewrite =>
      if task.None? then t
      else
        t.(tasks := Told(s.tasks, task.value, StartAnswered(r.ok)),
           h := if r.ok then Begun(s.h, task.value) else s.h)
    case FinishRewrite =>
      if task.None? then t
      else
        t.(tasks := Told(s.tasks, task.value, Ended(r.ok)),
           h := if Replaces(s.w, x.finish) then Rebuilt(s.h, FramesOf(s.tasks, task.value)) else s.h)
    case AbortRewrite =>
      if task.None? then t else t.(tasks := Told(s.tasks, task.value, Ended(false)))
  }

  /** A rewrite begins to buffer. */
  ghost function Begun(h: History, owner: nat): History {
    h.(owner := owner, startLog := Logged(h), startView := Committed(h), sinceStart := [])
  }

  /** The rewritten log is in place. */
  function Rebuilt(h: History, frames: seq<Frame>): History {
    h.(firm := frames + h.sinceStart, pre := h.pre + h.loose, loose := [], damaged := false)
  }

  /** An append and its sync succeeded: the whole log is durable. */
  function Entered(h: History, p: LogWrite): History {
    h.(pre := h.pre + h.loose + [p], firm := Logged(h) + [p.frame], loose := [], sinceStart := h.sinceStart + [p.frame])
  }

  /** The log and its meaning after a Write message. */
  function Recorded(h: History, p: LogWrite, ok: bool, failed: bool, x: WriteChoice): History {
    if ok then Entered(h, p) else if failed then h else h.(doubtful := Some(p), damaged := !x.resizeOk)
  }

  /** What the rewrite with this number wrote to the temporary file. */
  function FramesOf(tasks: seq<Task>, id: nat): seq<Frame> {
    if tasks == [] then []
    else if tasks[0].id == id && tasks[0].phase.FinishSent? then tasks[0].phase.frames
    else FramesOf(tasks[1..], id)
  }
}
