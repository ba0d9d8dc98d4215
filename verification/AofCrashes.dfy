/** What a crash leaves of the log, at any moment, and what the next start-up makes of it. */
module AofCrashes {
  import opened Base
  import opened Frames
  import opened Parser
  import opened Streaming
  import opened Blanks
  import opened RoundTrip
  import opened Commands
  import opened Semantics
  import opened Replay
  import opened ReplayReads
  import opened LogRuns
  import opened Recovery
  import opened Database
  import opened AofDisk
  import opened AofMachine
  import opened AofInvariant
  import opened AofSafety

  // ---- what a crash can leave ----

  /** The disk passes through `d` while the writer handles the next message. */
  ghost predicate InsideStep(s: State, x: Choice, d: Disk) {
    s.queue != [] && Sensible(s.w, s.queue[0].m, x) && d in HandleResult(s.w, s.queue[0].m, x).trace
  }

  /** The disk between two steps, or after any file operation inside one. */
  ghost predicate ReachesDisk(s: State, d: Disk) {
    d == s.w.disk || exists x :: InsideStep(s, x, d)
  }

  /** A power loss at any such moment may leave `image` as the log. */
  ghost predicate CanLeave(s: State, image: Bytes) {
    exists d :: ReachesDisk(s, d) && CrashImage(image, d)
  }

  /** The one append whose bytes may stand behind the log: the one that failed or the one being served. */
  function Extra(s: State): Option<LogWrite> {
    if s.w.failed then s.h.doubtful
    else if s.client.Busy? && s.client.answer.None? then Some(s.client.p)
    else None
  }

  /** The writes that may stand behind the firm part of the log, in this order. */
  function Chain(s: State): seq<LogWrite> {
    s.h.loose + (if Extra(s).Some? then [Extra(s).value] else [])
  }

  function ChainBytes(s: State): Bytes {
    EncodeAll(s.h.firm + LogFrames(Chain(s)))
  }

  /** The firm part of the log and a part of the rest. */
  predicate Torn(s: State, image: Bytes) {
    EncodeAll(s.h.firm) <= image <= ChainBytes(s)
  }

  predicate Finishing(s: State) {
    s.w.buffer.Some? && s.tasks != [] && s.tasks[0].phase.FinishSent?
  }

  /** The frames of the log that a finishing rewrite puts in place. */
  function RebuiltFrames(s: State): seq<Frame>
    requires Finishing(s)
  {
    s.tasks[0].phase.frames + s.h.sinceStart
  }

  predicate Explained(s: State, image: Bytes) {
    Torn(s, image) || (Finishing(s) && image == EncodeAll(RebuiltFrames(s)))
  }

  /** A file that holds the log, durably in its firm part, or the complete log of a rewrite, durably. */
  predicate FileExplained(s: State, f: File) {
    Within(f, EncodeAll(s.h.firm), ChainBytes(s)) || (Finishing(s) && f == Synced(EncodeAll(RebuiltFrames(s))))
  }

  /** A file that holds all of the log, or the complete log of a rewrite. */
  predicate NothingGone(s: State, f: File) {
    EncodeAll(Logged(s.h)) <= f.bytes || (Finishing(s) && f == Synced(EncodeAll(RebuiltFrames(s))))
  }

  /** How many leading frames lie within the first `len` bytes. */
  function WholeFrames(fs: seq<Frame>, len: nat): (n: nat)
    ensures n <= |fs|
  {
    if fs == [] || len < |Encode(fs[0])| then 0 else 1 + WholeFrames(fs[1..], len - |Encode(fs[0])|)
  }

  /** How many of the writes behind the firm part are complete. */
  function KeptCount(s: State, image: Bytes): (n: nat)
    requires Torn(s, image)
    ensures n <= |Chain(s)|
  {
    WholeFrames(LogFrames(Chain(s)), |image| - |EncodeAll(s.h.firm)|)
  }

  function KeptFrames(s: State, image: Bytes): seq<Frame>
    requires Explained(s, image)
  {
    if Torn(s, image) then s.h.firm + LogFrames(Chain(s)[..KeptCount(s, image)]) else RebuiltFrames(s)
  }

  function KeptWrites(s: State, image: Bytes): seq<LogWrite>
    requires Explained(s, image)
  {
    s.h.pre + (if Torn(s, image) then Chain(s)[..KeptCount(s, image)] else s.h.loose)
  }

  ghost function KeptView(s: State, image: Bytes): Keyspace
    requires Explained(s, image)
  {
    Fold(KeptWrites(s, image), s.h.acked)
  }

  // ---- every crash is explained ----

  lemma ChainBytesAre(s: State)
    ensures ChainBytes(s) == EncodeAll(Logged(s.h)) + (if Extra(s).Some? then Encode(Extra(s).value.frame) else [])
  {
    hide Encode, EncodeAll, Extra;
    if Extra(s).Some? {
      var p := Extra(s).value;
      assert s.h.firm + LogFrames(Chain(s)) == Logged(s.h) + [p.frame];
      EncodeAllSnoc(Logged(s.h), p.frame);
    } else {
      assert Chain(s) == s.h.loose;
    }
  }

  lemma ActiveIsExplained(s: State, T: Millis)
    requires DiskOk(s.w, s.h, T) && LogOk(s.h, T)
    ensures FileExplained(s, s.w.disk.active) && NothingGone(s, s.w.disk.active)
  {
    hide LogOk, Pending, EncodeAll, Encode, Committed, ChainBytes, Logged, Finishing, Chain;
    LogMeansCommitted(s.h, T);
    ChainBytesAre(s);
  }

  lemma WriteTraceExplained(s: State, x: Choice, d: Disk, T: Millis)
    requires Inv(s, T) && InsideStep(s, x, d) && s.queue[0].m.Write?
    ensures d.previous == s.w.disk.previous && FileExplained(s, d.active) && NothingGone(s, d.active)
  {
    hide LogOk, ClientOk, BufferOk, TasksOk, QueueOk, Pending, Encode, EncodeAll, Logged, Committed, ChainBytes,
         Finishing;
    HeadIs(s);
    LogMeansCommitted(s.h, T);
    ChainBytesAre(s);
  }

  lemma FinishTrace(w: WriterState, x: Choice, d: Disk, snapshot: Bytes)
    requires Sensible(w, FinishRewrite, x) && d in HandleResult(w, FinishRewrite, x).trace
    requires w.disk.temp == Some(Synced(snapshot))
    ensures w.buffer.Some?
    ensures d.active == w.disk.active || d.active == Synced(snapshot + Buffered(w))
    ensures d.previous == w.disk.previous || d.previous == [] || d.previous == w.disk.previous + [w.disk.active]
  {
    hide FinishResult;
    if w.buffer.None? {
      RefusedWithoutBuffer(w, x.finish);
    } else {
      FinishMeans(w, x.finish, snapshot);
    }
  }

  lemma FinishTraceExplained(s: State, x: Choice, d: Disk, T: Millis)
    requires Inv(s, T) && InsideStep(s, x, d) && s.queue[0].m.FinishRewrite?
    ensures d.previous == s.w.disk.previous || d.previous == [] || d.previous == s.w.disk.previous + [s.w.disk.active]
    ensures FileExplained(s, d.active) && NothingGone(s, d.active) && FileExplained(s, s.w.disk.active)
  {
    hide LogOk, DiskOk, ClientOk, BufferOk, TasksOk, QueueOk, Within, EncodeAll, ChainBytes, Logged, HandleResult,
         Sensible, TaskMsgs;
    HeadIs(s);
    TaskMsgPhase(s.tasks, s.queue[0]);
    FinishingTask(s, T);
    ActiveIsExplained(s, T);
    var frames := s.tasks[0].phase.frames;
    FinishTrace(s.w, x, d, EncodeAll(frames));
    BufferedIs(s.w, s.h, T);
    EncodeAllAppend(frames, s.h.sinceStart);
  }

  /** Every file a crash may leave under the log's name is explained, unless a rename was never made
      durable: then it may also be one of the files that were replaced. */
  lemma ReachedIsExplained(s: State, d: Disk, T: Millis)
    requires Inv(s, T) && ReachesDisk(s, d)
    ensures FileExplained(s, d.active) && NothingGone(s, d.active)
    ensures forall i :: 0 <= i < |d.previous| ==> d.previous[i] in s.w.disk.previous || FileExplained(s, d.previous[i])
  {
    hide LogOk, DiskOk, ClientOk, BufferOk, TasksOk, QueueOk, FileExplained, NothingGone, WriteResult, FinishResult;
    ActiveIsExplained(s, T);
    if d != s.w.disk {
      var x :| InsideStep(s, x, d);
      match s.queue[0].m
      case Write(_) => WriteTraceExplained(s, x, d, T);
      case FinishRewrite => FinishTraceExplained(s, x, d, T);
      case StartRewrite =>
      case AbortRewrite =>
    }
  }

  lemma FileLeaves(s: State, f: File, image: Bytes)
    requires FileExplained(s, f) && (Survives(image, f) || image == f.bytes)
    ensures Explained(s, image)
  {
    hide EncodeAll, ChainBytes, Finishing;
  }

  /** Whatever a power loss leaves is the firm part of the log and a part of the rest, or the complete
      log of a rewrite that is just being finished, as long as every rename was made durable. */
  lemma CrashExplained(s: State, image: Bytes, T: Millis)
    requires Inv(s, T) && s.w.disk.previous == [] && CanLeave(s, image)
    ensures Explained(s, image)
  {
    hide Inv, Explained, ReachesDisk, FileExplained, Survives;
    var d :| ReachesDisk(s, d) && CrashImage(image, d);
    ReachedIsExplained(s, d, T);
    if Survives(image, d.active) {
      FileLeaves(s, d.active, image);
    } else {
      var i :| 0 <= i < |d.previous| && Survives(image, d.previous[i]);
      FileLeaves(s, d.previous[i], image);
    }
  }

  // ---- what it replays to ----

  /** Replaying the image at `t` keeps exactly the printed frames, which mean what `v` shows then; behind
      them stands at most a frame that was cut short. */
  ghost predicate RecoversTo(image: Bytes, fs: seq<Frame>, v: Keyspace, t: Millis) {
    && LogMeans(fs, Live(v, t), t) && ViewOk(v)
    && EncodeAll(fs) <= image
    && var torn := image[|EncodeAll(fs)|..];
      Parse(torn, true) == NeedMore(torn) && Load(image, map[], t) == Loaded(Live(v, t), |fs|, torn)
  }

  /** ... for a replay at every reading from `from` to `T`. */
  ghost predicate RecoversFrom(image: Bytes, fs: seq<Frame>, v: Keyspace, from: Millis, T: Millis) {
    forall t :: from <= t <= T ==> RecoversTo(image, fs, v, t)
  }

  lemma CutNeedsMore(frame: Frame, n: nat)
    requires Wire(frame) && n < |Encode(frame)|
    ensures Parse(Encode(frame)[..n], true) == NeedMore(Encode(frame)[..n])
  {
    hide Parse, Encode;
    ParsePrefix(frame, n);
  }

  lemma WholeLogRecovers(fs: seq<Frame>, v: Keyspace, T: Millis)
    requires LogMeans(fs, Live(v, T), T) && ViewOk(v)
    ensures RecoversTo(EncodeAll(fs), fs, v, T)
  {
    hide ViewOk, Wire, Replayed, Load, EncodeAll, Parse, Live;
    LoadWhole(fs, map[], T);
    ParseNothing();
    assert EncodeAll(fs)[|EncodeAll(fs)|..] == [];
  }

  /** The part of the printed frames that `len` bytes hold: whole frames, then less than the next one. */
  lemma {:induction false} WholeFramesAre(fs: seq<Frame>, part: Bytes)
    requires part <= EncodeAll(fs)
    ensures var n := WholeFrames(fs, |part|);
      && EncodeAll(fs[..n]) <= part
      && (n == |fs| ==> part == EncodeAll(fs[..n]))
      && (n < |fs| ==> var k := |part| - |EncodeAll(fs[..n])|;
                       k < |Encode(fs[n])| && part == EncodeAll(fs[..n]) + Encode(fs[n])[..k])
    decreases |fs|
  {
    hide Encode;
    if fs == [] {
    } else {
      var first, rest := Encode(fs[0]), EncodeAll(fs[1..]);
      if |part| < |first| {
        assert fs[..0] == [];
        assert part == (first + rest)[..|part|] == first[..|part|];
      } else {
        var more := part[|first|..];
        assert part == (first + rest)[..|part|] && part == first + more;
        assert more == rest[..|more|];
        WholeFramesAre(fs[1..], more);
        var n := WholeFrames(fs[1..], |more|);
        assert fs[..n + 1][0] == fs[0] && fs[..n + 1][1..] == fs[1..][..n];
        assert EncodeAll(fs[..n + 1]) == first + EncodeAll(fs[1..][..n]);
      }
    }
  }

  /** Frames that lie within the given length are counted. */
  lemma {:induction false} WholeFramesAtLeast(fs: seq<Frame>, k: nat, len: nat)
    requires k <= |fs| && |EncodeAll(fs[..k])| <= len
    ensures WholeFrames(fs, len) >= k
    decreases |fs|
  {
    hide Encode;
    if k > 0 {
      assert fs[..k][0] == fs[0] && fs[..k][1..] == fs[1..][..k - 1];
      WholeFramesAtLeast(fs[1..], k - 1, len - |Encode(fs[0])|);
    }
  }

  /** The extra append is a pending write of what is committed. */
  lemma ChainIsPending(s: State, T: Millis)
    requires LogOk(s.h, T) && DiskOk(s.w, s.h, T) && ClientOk(s, T)
    ensures AllPending(Chain(s), FirmView(s.h), T)
  {
    hide Pending, LogMeans, ViewOk, Fold, SameLive, IsSnapshot, WriteStep, Within, EncodeAll;
    var ps := Chain(s);
    forall i | 0 <= i < |ps|
      ensures Pending(ps[i], Fold(ps[..i], FirmView(s.h)), T)
    {
      if i < |s.h.loose| {
        assert ps[..i] == s.h.loose[..i];
      } else {
        assert ps[..i] == s.h.loose;
      }
    }
  }

  lemma TornRecovers(s: State, image: Bytes, T: Millis)
    requires LogOk(s.h, T) && DiskOk(s.w, s.h, T) && ClientOk(s, T) && Torn(s, image)
    ensures Explained(s, image) && RecoversTo(image, KeptFrames(s, image), KeptView(s, image), T)
  {
    hide ViewOk, WriteOk, Step, Encode, EncodeAll, DiskOk, ClientOk, Finishing, Fold, Chain, Live, Wire, Replayed, Load, Parse;
    var ps, firm := Chain(s), s.h.firm;
    var fs := LogFrames(ps);
    EncodeAllAppend(firm, fs);
    var part := image[|EncodeAll(firm)|..];
    assert image == EncodeAll(firm) + part;
    assert part == EncodeAll(fs)[..|part|];
    var n := KeptCount(s, image);
    WholeFramesAre(fs, part);
    ChainIsPending(s, T);
    ChainMeans(firm, ps, FirmView(s.h), n, T);
    FoldAppend(s.h.pre, ps[..n], s.h.acked);
    var kept := LogFrames(ps[..n]);
    assert fs[..n] == kept;
    EncodeAllAppend(firm, kept);
    if n < |ps| {
      assert Pending(ps[n], Fold(ps[..n], FirmView(s.h)), T);
      var k := |part| - |EncodeAll(kept)|;
      assert image == EncodeAll(firm + kept) + Encode(fs[n])[..k];
      LoadTorn(firm + kept, fs[n], k, map[], T);
      CutNeedsMore(fs[n], k);
      assert image[|EncodeAll(firm + kept)|..] == Encode(fs[n])[..k];
    } else {
      assert image == EncodeAll(firm + kept);
      WholeLogRecovers(firm + kept, KeptView(s, image), T);
    }
  }

  lemma RebuiltRecovers(s: State, T: Millis)
    requires LogOk(s.h, T) && TasksOk(s, T) && BufferOk(s.w, s.h, T) && Finishing(s)
    ensures RecoversTo(EncodeAll(RebuiltFrames(s)), RebuiltFrames(s), Committed(s.h), T)
  {
    hide LogMeans, ViewOk, EncodeAll, RecoversTo, TasksOk, BufferOk, Replayed, AllWire, Live, Fold, LogOk;
    FinishingTask(s, T);
    BufferedIs(s.w, s.h, T);
    LogMeansCommitted(s.h, T);
    LogJoins(s.tasks[0].phase.frames, Live(s.h.startView, T), s.h.sinceStart, Live(Committed(s.h), T), T);
    WholeLogRecovers(RebuiltFrames(s), Committed(s.h), T);
  }

  lemma ExplainedRecovers(s: State, image: Bytes, T: Millis)
    requires Inv(s, T) && Explained(s, image)
    ensures RecoversTo(image, KeptFrames(s, image), KeptView(s, image), T)
  {
    hide Inv, Torn, RecoversTo, Finishing, EncodeAll, Fold, Chain;
    InvParts(s, T);
    if Torn(s, image) {
      TornRecovers(s, image, T);
    } else {
      RebuiltRecovers(s, T);
      FoldAppend(s.h.pre, s.h.loose, s.h.acked);
    }
  }

  // ---- what may turn up ----

  /** The writes that were not acknowledged and may be in the log: those that are durable, those left
      there by killed processes, and the one a client waits for or whose append failed. */
  function Unacked(s: State): seq<LogWrite> {
    s.h.pre + Chain(s)
  }

  /** All acknowledged writes, all durable ones and the first few of the others, in their order. */
  ghost predicate AckedAndMore(s: State, v: Keyspace) {
    exists ws :: s.h.pre <= ws <= Unacked(s) && v == Fold(ws, s.h.acked)
  }

  lemma KeptAreUnacked(s: State, image: Bytes)
    requires Explained(s, image)
    ensures s.h.pre <= KeptWrites(s, image) <= Unacked(s)
    ensures AckedAndMore(s, KeptView(s, image))
  {
    hide Torn, Extra, Finishing, Fold, KeptCount;
    assert s.h.pre <= KeptWrites(s, image) <= Unacked(s);
  }

  /** With all of the log there, all its writes are kept. */
  lemma WholeLogIsKept(s: State, image: Bytes)
    requires Explained(s, image) && EncodeAll(Logged(s.h)) <= image
    ensures s.h.pre + s.h.loose <= KeptWrites(s, image)
  {
    hide EncodeAll, Extra, Finishing;
    if Torn(s, image) {
      var loose := s.h.loose;
      EncodeAllAppend(s.h.firm, LogFrames(loose));
      assert LogFrames(Chain(s))[..|loose|] == LogFrames(loose);
      WholeFramesAtLeast(LogFrames(Chain(s)), |loose|, |image| - |EncodeAll(s.h.firm)|);
      assert Chain(s)[..|loose|] == loose;
    }
  }

  /** A crash image replays, at any reading from the last one to `T`, to all acknowledged writes and the
      first few of the unacknowledged ones, always the same. */
  ghost predicate CrashSafe(s: State, image: Bytes, T: Millis) {
    exists fs, v :: RecoversFrom(image, fs, v, s.clock, T) && AckedAndMore(s, v)
  }

  lemma ExplainedRecoversFrom(s: State, image: Bytes, T: Millis)
    requires Safe(s, T) && Explained(s, image)
    ensures RecoversFrom(image, KeptFrames(s, image), KeptView(s, image), s.clock, T)
    ensures AckedAndMore(s, KeptView(s, image))
  {
    hide Inv, Explained, RecoversTo, KeptFrames, KeptView, AckedAndMore;
    forall t | s.clock <= t <= T
      ensures RecoversTo(image, KeptFrames(s, image), KeptView(s, image), t)
    {
      ExplainedRecovers(s, image, t);
    }
    KeptAreUnacked(s, image);
  }

  lemma LeftIsSafe(s: State, d: Disk, image: Bytes, T: Millis)
    requires Safe(s, T) && s.w.disk.previous == [] && ReachesDisk(s, d) && CrashImage(image, d)
    ensures CrashSafe(s, image, T)
  {
    hide Inv, Explained, ReachesDisk, CrashImage, RecoversFrom, KeptFrames, KeptView, AckedAndMore;
    CrashExplained(s, image, s.clock);
    ExplainedRecoversFrom(s, image, T);
  }

  // ---- what the start-up makes of it ----

  /** Printed frames and a torn one hold no line that depends on the reads. */
  lemma {:induction false} PrintedIsSteady(fs: seq<Frame>, torn: Bytes, m: Keyspace, now: Millis)
    requires AllWire(fs) && Parse(torn, true) == NeedMore(torn)
    ensures Steady(EncodeAll(fs) + torn, m, now)
    decreases |fs|
  {
    hide Parse, Applies, After, Wire, Encode;
    var file := EncodeAll(fs) + torn;
    if fs == [] {
      assert file == torn;
    } else {
      var rest := EncodeAll(fs[1..]) + torn;
      assert Wire(fs[0]) && file == Encode(fs[0]) + rest;
      ParseWire(fs[0], rest, true);
      ParseWire(fs[0], rest, false);
      if Applies(fs[0], m, now) {
        PrintedIsSteady(fs[1..], torn, After(fs[0], m, now), now);
        SteadyGot(file, m, now, fs[0], rest);
      }
    }
  }

  /** A part of the printed frames that yields as many frames is all of it. */
  lemma {:induction false} AllFramesAllBytes(fs: seq<Frame>, kept: Bytes)
    requires AllWire(fs) && kept <= EncodeAll(fs) && |Drain(kept, true).frames| >= |fs|
    ensures kept == EncodeAll(fs)
    decreases |fs|
  {
    hide Parse, Wire, Encode;
    if fs != [] {
      var first, rest := Encode(fs[0]), EncodeAll(fs[1..]);
      assert Wire(fs[0]);
      if |kept| < |first| {
        assert kept == (first + rest)[..|kept|] == first[..|kept|];
        CutNeedsMore(fs[0], |kept|);
      } else {
        var more := kept[|first|..];
        assert kept == (first + rest)[..|kept|] && kept == first + more;
        assert more == rest[..|more|];
        ParseWire(fs[0], more, true);
        DrainCons(kept, fs[0], more, true);
        AllFramesAllBytes(fs[1..], more);
      }
    }
  }

  /** A replay of a crash image keeps exactly its printed frames. */
  lemma ReplayKeepsFrames(image: Bytes, fs: seq<Frame>, v: Keyspace, now: Millis,
                          kept: Bytes, cur: Keyspace, applied: nat)
    requires RecoversTo(image, fs, v, now) && Replays(image, kept, cur, applied, now)
    ensures cur == Live(v, now) && applied == |fs| && kept == EncodeAll(fs) && Drain(kept, true).frames == fs
  {
    hide ViewOk, Wire, Replayed, Load, EncodeAll, Parse, Steady, SkipBlanks, Drain, Live;
    var torn := image[|EncodeAll(fs)|..];
    assert image == EncodeAll(fs) + torn;
    PrintedIsSteady(fs, torn, map[], now);
    assert Recovers(image, kept, cur, applied, now);
    assert |SkipBlanks(image[|kept|..])| <= |image| - |kept|;
    assert kept == image[..|kept|] && kept <= EncodeAll(fs);
    WholeIsFrames(kept, map[], now);
    AllFramesAllBytes(fs, kept);
    DrainEncoded(fs, true);
  }

  /** What the start-up after a power loss finds: what the power loss left or, if start-ups before it were
      interrupted while they cut the file, anything between that and what a replay at some reading keeps of it. */
  ghost predicate Finds(left: Bytes, image: Bytes, from: Millis, now: Millis) {
    image == left ||
    exists at, kept, cur, applied :: from <= at <= now && Replays(left, kept, cur, applied, at) && kept <= image <= left
  }

  lemma PartlyCutIsExplained(s: State, left: Bytes, image: Bytes, now: Millis, T: Millis)
    requires Safe(s, T) && Explained(s, left) && Finds(left, image, s.clock, now) && now <= T
    ensures Explained(s, image)
  {
    hide Safe, Explained, KeptFrames, KeptView, RecoversTo, Replays, Live;
    if image != left {
      var at, kept, cur, applied :|
        s.clock <= at <= now && Replays(left, kept, cur, applied, at) && kept <= image <= left;
      ExplainedRecoversFrom(s, left, T);
      assert RecoversTo(left, KeptFrames(s, left), KeptView(s, left), at);
      ReplayKeepsFrames(left, KeptFrames(s, left), KeptView(s, left), at, kept, cur, applied);
      CutExplained(s, left, image);
    }
  }

  lemma CutExplained(s: State, left: Bytes, image: Bytes)
    requires Explained(s, left) && EncodeAll(KeptFrames(s, left)) <= image <= left
    ensures Explained(s, image)
  {
    hide EncodeAll, Chain, Finishing, KeptCount;
    if Torn(s, left) {
      EncodeAllAppend(s.h.firm, LogFrames(Chain(s)[..KeptCount(s, left)]));
    }
  }
}
