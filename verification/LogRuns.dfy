/** Whole logs: what their frames mean, which prefix a replay keeps, and that a log replays to the
    state of the run that wrote it. */
module LogRuns {
  import opened Base
  import opened Limits
  import opened Frames
  import opened Parser
  import opened Streaming
  import opened Blanks
  import opened RoundTrip
  import opened Commands
  import opened Semantics
  import opened Laws
  import opened Replay
  import opened Requests
  import Codec

  // ---- the meaning of a list of frames ----

  /** Applies frame after frame; `None` if one fails. */
  ghost function Replayed(fs: seq<Frame>, m: Keyspace, now: Millis): Option<Keyspace>
    decreases |fs|
  {
    if fs == [] then Some(m)
    else if !Applies(fs[0], m, now) then None
    else Replayed(fs[1..], After(fs[0], m, now), now)
  }

  lemma {:induction false} ReplayedAppend(a: seq<Frame>, b: seq<Frame>, m: Keyspace, now: Millis)
    ensures Replayed(a + b, m, now)
         == var first := Replayed(a, m, now); if first.Some? then Replayed(b, first.value, now) else None
    decreases |a|
  {
    hide Applies, After;
    if a == [] {
      assert a + b == b;
    } else {
      assert (a + b)[0] == a[0] && (a + b)[1..] == a[1..] + b;
      if Applies(a[0], m, now) {
        ReplayedAppend(a[1..], b, After(a[0], m, now), now);
      }
    }
  }

  lemma ReplayedOne(f: Frame, m: Keyspace, now: Millis)
    ensures Replayed([f], m, now) == if Applies(f, m, now) then Some(After(f, m, now)) else None
  {
    hide Applies, After;
    assert [f][1..] == [];
  }

  lemma {:induction false} ReplayedFresh(fs: seq<Frame>, m: Keyspace, now: Millis)
    requires NoneExpired(m, now)
    ensures Replayed(fs, m, now).Some? ==> NoneExpired(Replayed(fs, m, now).value, now)
    decreases |fs|
  {
    hide Applies, After;
    if fs != [] && Applies(fs[0], m, now) {
      AfterFresh(fs[0], m, now);
      ReplayedFresh(fs[1..], After(fs[0], m, now), now);
    }
  }

  // ---- frames on disk ----

  /** Printed frames that all apply are replayed in order, and the replay goes on behind them. */
  lemma {:induction false} LoadFrames(fs: seq<Frame>, rest: Bytes, m: Keyspace, now: Millis)
    requires AllWire(fs) && Replayed(fs, m, now).Some?
    ensures Load(EncodeAll(fs) + rest, m, now)
         == var more := Load(rest, Replayed(fs, m, now).value, now); Loaded(more.db, |fs| + more.applied, more.tail)
    decreases |fs|
  {
    hide Applies, After, Parse, Load, Wire, Encode;
    if fs == [] {
      assert EncodeAll(fs) + rest == rest;
    } else {
      var tail := EncodeAll(fs[1..]) + rest;
      assert Wire(fs[0]);
      assert EncodeAll(fs) + rest == Encode(fs[0]) + tail;
      ParseWire(fs[0], tail, true);
      LoadStep(Encode(fs[0]) + tail, m, now, fs[0], tail);
      LoadFrames(fs[1..], rest, After(fs[0], m, now), now);
    }
  }

  /** A log of printed frames is kept whole. */
  lemma LoadWhole(fs: seq<Frame>, m: Keyspace, now: Millis)
    requires AllWire(fs) && Replayed(fs, m, now).Some?
    ensures Load(EncodeAll(fs), m, now) == Loaded(Replayed(fs, m, now).value, |fs|, [])
  {
    hide Load, Replayed, Wire, Encode;
    assert EncodeAll(fs) + [] == EncodeAll(fs);
    LoadFrames(fs, [], m, now);
    LoadEmpty(Replayed(fs, m, now).value, now);
  }

  /** A frame cut short at the end is dropped, and nothing else. */
  lemma LoadTorn(fs: seq<Frame>, f: Frame, n: nat, m: Keyspace, now: Millis)
    requires AllWire(fs) && Replayed(fs, m, now).Some? && Wire(f) && n < |Encode(f)|
    ensures Load(EncodeAll(fs) + Encode(f)[..n], m, now)
         == Loaded(Replayed(fs, m, now).value, |fs|, Encode(f)[..n])
  {
    hide Load, Replayed, Encode, Parse;
    var torn := Encode(f)[..n];
    LoadFrames(fs, torn, m, now);
    ParsePrefix(f, n);
    LoadStopsWithTail(torn, Replayed(fs, m, now).value, now);
  }

  // ---- any file ----

  /** A file that is kept whole consists of frames that all apply. */
  lemma {:induction false} WholeIsFrames(file: Bytes, m: Keyspace, now: Millis)
    requires Load(file, m, now).tail == []
    ensures var r, d := Load(file, m, now), Drain(file, true);
      d == Drained(d.frames, [], None) && Replayed(d.frames, m, now) == Some(r.db) && |d.frames| == r.applied
    decreases |file|
  {
    hide Parse, Applies, After, Stopped, SkipBlanks, Load;
    LoadStopsWithTail(file, m, now);
    match Parse(file, true)
    case Got(f, rest) =>
      LoadStep(file, m, now, f, rest);
      DrainCons(file, f, rest, true);
      WholeIsFrames(rest, After(f, m, now), now);
      var more := Drain(rest, true).frames;
      assert ([f] + more)[0] == f && ([f] + more)[1..] == more;
    case NeedMore(rest) =>
    case Fail(_) =>
  }

  /** Where a replay stops, no further frame can be kept. */
  lemma {:induction false} NothingMoreApplies(file: Bytes, m: Keyspace, now: Millis)
    requires NoneExpired(m, now)
    ensures var r := Load(file, m, now);
      Parse(r.tail, true).Got? ==> !Applies(Parse(r.tail, true).frame, r.db, now)
    decreases |file|
  {
    hide Parse, Applies, After, Stopped, SkipBlanks, Load;
    match Parse(file, true)
    case Got(f, rest) =>
      if Applies(f, m, now) {
        LoadStep(file, m, now, f, rest);
        AfterFresh(f, m, now);
        NothingMoreApplies(rest, After(f, m, now), now);
      } else {
        StopsUnchanged(file, m, now);
        ParseSkipsBlanks(file, true);
      }
    case _ =>
      StopsUnchanged(file, m, now);
      ParseSkipsBlanks(file, true);
  }

  /** A replay keeps exactly the leading frames that parse, decode and apply without an error: the
      kept part is those frames and nothing else, the keyspace is what they make of it, and behind
      them stands no frame that applies. */
  lemma LongestGoodPrefix(file: Bytes, m: Keyspace, now: Millis)
    requires NoneExpired(m, now)
    ensures var r := Load(file, m, now);
      var kept := file[..|file| - |r.tail|];
      var frames := Drain(kept, true).frames;
      && file == kept + r.tail
      && Drain(kept, true) == Drained(frames, [], None)
      && Replayed(frames, m, now) == Some(r.db)
      && |frames| == r.applied
      && (Parse(r.tail, true).Got? ==> !Applies(Parse(r.tail, true).frame, r.db, now))
  {
    hide Parse, Load, Drain, Replayed, Applies, SkipBlanks;
    var r := Load(file, m, now);
    var kept := file[..|file| - |r.tail|];
    KeptPrefixReloads(file, m, now);
    WholeIsFrames(kept, m, now);
    NothingMoreApplies(file, m, now);
    LoadTailSuffix(file, m, now);
    SuffixSplit(r.tail, file);
  }

  // ---- logs with a frame that cannot be read back ----

  /** A log of requests, each of which would apply, reloads up to the first that is too long for the
      parser; that one and everything behind it is cut off. */
  lemma LogReloads(fs: seq<Frame>, m: Keyspace, now: Millis)
    requires AllRequests(fs) && Replayed(fs, m, now).Some?
    ensures var n := Readable(fs);
      && Replayed(fs[..n], m, now).Some?
      && Load(EncodeAll(fs), m, now) == Loaded(Replayed(fs[..n], m, now).value, n, EncodeAll(fs[n..]))
    ensures Load(EncodeAll(fs), m, now).tail == [] <==> AllWire(fs)
  {
    hide Load, Replayed, Wire, Encode, IsRequest;
    var n := Readable(fs);
    assert fs == fs[..n] + fs[n..];
    EncodeAllAppend(fs[..n], fs[n..]);
    ReplayedAppend(fs[..n], fs[n..], m, now);
    LoadFrames(fs[..n], EncodeAll(fs[n..]), m, now);
    var v := Replayed(fs[..n], m, now).value;
    if n < |fs| {
      RefusedStops(fs[n], EncodeAll(fs[n + 1..]), v, now);
      assert fs[n..][0] == fs[n] && fs[n..][1..] == fs[n + 1..];
    } else {
      LoadEmpty(v, now);
    }
  }

  lemma RefusedStops(f: Frame, rest: Bytes, m: Keyspace, now: Millis)
    requires IsRequest(f) && !Wire(f)
    ensures Load(Encode(f) + rest, m, now) == Loaded(m, 0, Encode(f) + rest) && Encode(f) != []
  {
    hide Encode, Parse, Applies, After, Stopped, Wire;
    RequestParses(f, rest);
    EncodeTag(f);
    assert (Encode(f) + rest)[0] == Encode(f)[0];
  }

  /** A replay goes on behind a frame exactly if that decodes to a command, of any kind, that replies with no
      error. Otherwise the file is cut before it, whatever follows, though a decoded command has then been run. */
  lemma ReplayGoesOnIff(good: seq<Frame>, f: Frame, more: Bytes, m: Keyspace, v: Keyspace, now: Millis)
    requires AllWire(good) && Replayed(good, m, now) == Some(v) && Wire(f)
    ensures var r, c := Load(EncodeAll(good) + (Encode(f) + more), m, now), FromFrame(f, now);
      if c.Err? then r == Loaded(v, |good|, Encode(f) + more)
      else
        var next := Step(v, c.value, now);
        if next.reply.Error? then r == Loaded(next.db, |good|, Encode(f) + more)
        else var rest := Load(more, next.db, now); r == Loaded(rest.db, |good| + 1 + rest.applied, rest.tail)
  {
    hide Encode, EncodeAll, Parse, Wire, Step, FromFrame, Replayed;
    var file := Encode(f) + more;
    LoadFrames(good, file, m, now);
    ParseWire(f, more, true);
    EncodeTag(f);
    assert file[0] == Encode(f)[0];
    assert SkipBlanks(file) == file;
  }

  /** An acknowledged write can be lost with all behind it: this SET is exactly 64 MiB long, so it is
      received, decoded and answered OK, but its log form spells the deadline out and is longer. */
  lemma OversizedWriteIsLost(good: seq<Frame>, v: Keyspace, value: Bytes, more: Bytes, at: Millis, m: Keyspace,
                             now: Millis)
    requires AllWire(good) && Replayed(good, map[], now) == Some(m)
    requires |value| == 67108817 && at < MAX_EXPIRE_AT_MS
    ensures var request, c := Request(["SET", "", value, "PX", "1"]), Set("", value, Some(at + 1));
      && |Encode(request)| == MAX_BUFFERED_FRAME_BYTES
      && Parse(Encode(request), true) == Got(request, [])
      && FromFrame(request, at) == Ok(c)
      && Step(v, c, at).reply == OK
      && c.AofFrame(at).Some?
      && var frame := Encode(c.AofFrame(at).value);
        Load(EncodeAll(good) + frame + more, map[], now) == Loaded(m, |good|, frame + more)
  {
    hide *;
    OversizedRequest(value, at, v);
    OversizedLog(value, at);
    var f := Set("", value, Some(at + 1)).AofFrame(at).value;
    LoadFrames(good, Encode(f) + more, map[], now);
    RefusedStops(f, more, m, now);
    assert EncodeAll(good) + Encode(f) + more == EncodeAll(good) + (Encode(f) + more);
  }

  lemma OversizedRequest(value: Bytes, at: Millis, v: Keyspace)
    requires |value| == 67108817 && at < MAX_EXPIRE_AT_MS
    ensures var request, c := Request(["SET", "", value, "PX", "1"]), Set("", value, Some(at + 1));
      && |Encode(request)| == MAX_BUFFERED_FRAME_BYTES
      && Parse(Encode(request), true) == Got(request, [])
      && FromFrame(request, at) == Ok(c)
      && Step(v, c, at).reply == OK
  {
    hide Encode, Parse, FromFrame, DecodeSet, BulkLen;
    var parts := ["SET", "", value, "PX", "1"];
    OversizedLens();
    RequestLenIs(parts);
    FiveParts(parts);
    WireRequest(parts, []);
    assert Encode(Request(parts)) + [] == Encode(Request(parts));
    assert parts == ["SET"] + ["", value, "PX", "1"];
    Codec.RequestDecodes(SET, ["", value, "PX", "1"], at);
    OversizedDecodes(value, at);
  }

  lemma OversizedDecodes(value: Bytes, at: Millis)
    requires at < MAX_EXPIRE_AT_MS
    ensures DecodeSet(["", value, "PX", "1"], at) == Ok(Set("", value, Some(at + 1)))
  {
    hide ParseI64;
    var args := ["", value, "PX", "1"];
    ParseDecInt(1);
    assert DecInt(1) == "1" && Upper("PX") == "PX";
    assert SetOptionDeadline("PX", 1, at) == Ok(at + 1);
    assert SetOptions(args, 4, Some(at + 1), at) == Ok(Some(at + 1));
  }

  lemma OversizedLens()
    ensures BulkLen(3) == 9 && BulkLen(0) == 6 && BulkLen(67108817) == 67108830 && BulkLen(2) == 8 && BulkLen(1) == 7
    ensures BulkLen(4) == 10 && HeaderLen(5) == 4 && BulkResponseFits(67108817)
  {
    assert |Dec(67108817)| == 8 by {
      assert |Dec(671)| == 3;
      assert |Dec(671088)| == 6;
    }
  }

  lemma OversizedLog(value: Bytes, at: Millis)
    requires |value| == 67108817 && at < MAX_EXPIRE_AT_MS
    ensures var c := Set("", value, Some(at + 1));
      c.AofFrame(at).Some? && IsRequest(c.AofFrame(at).value) && !Wire(c.AofFrame(at).value)
  {
    hide Encode, BulkLen, Dec, HeaderLen, Wire;
    var parts := ["SET", "", value, "PXAT", Dec(at + 1)];
    OversizedLens();
    RequestLenIs(parts);
    FiveParts(parts);
    BulkLenMonotone(1, |Dec(at + 1)|);
    assert ["SET", "", value] + ["PXAT", Dec(at + 1)] == parts;
    RequestIsWire(parts);
  }

  // ---- a log replays to the run that wrote it ----

  predicate Writes(run: Run) {
    forall i :: 0 <= i < |run| ==> run[i].0.IsWrite()
  }

  /** A write that succeeded, its deadline being one that can be logged. */
  ghost predicate SucceededOn(m: Keyspace, c: Command, at: Millis) {
    c.IsWrite() && Codec.Decodable(c, at) && !Codec.HasHugeDeadline(c) && !Step(m, c, at).reply.Error?
  }

  /** Writes that succeeded one after the other, the clock not going back. */
  ghost predicate Succeeds(run: Run, m: Keyspace) {
    && (forall i :: 0 <= i < |run| ==> SucceededOn(RunDb(run[..i], m), run[i].0, run[i].1))
    && forall i, j :: 0 <= i < j < |run| ==> run[i].1 <= run[j].1
  }

  /** None of them needs a key that expires between it and `later`. */
  ghost predicate AllReach(run: Run, m: Keyspace, later: Millis) {
    forall i :: 0 <= i < |run| ==> Reaches(RunDb(run[..i], m), run[i].0, run[i].1, later)
  }

  /** What the run appends to the log. */
  function LogOf(run: Run): (fs: seq<Frame>)
    requires Writes(run)
    ensures |fs| == |run| && AllRequests(fs)
    ensures forall i :: 0 <= i < |run| ==> run[i].0.AofFrame(run[i].1) == Some(fs[i])
  {
    if run == [] then [] else
    var (c, at) := run[|run| - 1];
    Codec.LoggedIffWrite(c, at);
    assert c.AofFrame(at).value == Request(c.AofParts(at).value);
    LogOf(run[..|run| - 1]) + [c.AofFrame(at).value]
  }

  /** The first `n` writes of a run of successful writes. */
  lemma Prefix(run: Run, m: Keyspace, later: Millis, n: nat)
    requires Succeeds(run, m) && n <= |run|
    ensures Succeeds(run[..n], m) && Writes(run) && (AllReach(run, m, later) ==> AllReach(run[..n], m, later))
  {
    hide Codec.Decodable, Codec.HasHugeDeadline, Step, Reaches;
    forall i | 0 <= i < n
      ensures run[..n][i] == run[i] && run[..n][..i] == run[..i]
    {
    }
    assert forall i :: 0 <= i < |run| ==> SucceededOn(RunDb(run[..i], m), run[i].0, run[i].1);
  }

  /** One write more. */
  lemma OneMore(run: Run, m: Keyspace, i: nat)
    requires Writes(run) && i < |run|
    ensures RunDb(run[..i + 1], m) == Step(RunDb(run[..i], m), run[i].0, run[i].1).db
    ensures LogOf(run[..i + 1]) == LogOf(run[..i]) + [LogOf(run)[i]]
  {
    hide Step, Command.AofFrame;
    assert run[..i + 1] == run[..i] + [(run[i].0, run[i].1)];
    RunDbSnoc(run[..i], run[i].0, run[i].1, m);
  }

  /** One logged write, replayed at any later reading, does what the write did, as far as it is live then. */
  lemma LoggedWriteReplays(c: Command, at: Millis, f: Frame, m: Keyspace, t: Millis, later: Millis)
    requires SucceededOn(m, c, at) && at <= t <= later && Reaches(m, c, at, later) && c.AofFrame(at) == Some(f)
    ensures Replayed([f], Live(m, t), t) == Some(Live(Step(m, c, at).db, t))
  {
    hide Step, FromFrame, Reaches;
    Codec.LogDecodes(c, at, t);
    WriteReplays(m, c, at, t, later);
    ReplayedOne(f, Live(m, t), t);
  }

  /** Replaying the log of a run, at any reading after it, on what is live then of the keyspace it began
      with, gives what is live then of the keyspace it ended with. */
  lemma {:induction false} LogRefinesRun(run: Run, m: Keyspace, t: Millis, later: Millis)
    requires Succeeds(run, m) && AllReach(run, m, later) && t <= later
    requires run != [] ==> run[|run| - 1].1 <= t
    ensures Writes(run) && Replayed(LogOf(run), Live(m, t), t) == Some(Live(RunDb(run, m), t))
    decreases |run|
  {
    hide Step, Applies, After, SucceededOn, Reaches, Live, Command.AofFrame;
    Prefix(run, m, later, |run|);
    assert run[..|run|] == run;
    if run == [] {
    } else {
      var n := |run| - 1;
      Prefix(run, m, later, n);
      LogRefinesRun(run[..n], m, t, later);
      OneMore(run, m, n);
      LoggedWriteReplays(run[n].0, run[n].1, LogOf(run)[n], RunDb(run[..n], m), t, later);
      ReplayedAppend(LogOf(run[..n]), [LogOf(run)[n]], Live(m, t), t);
    }
  }

  /** At every point of the run and every reading from there to `later`, the log so far replays to what
      is live then. */
  ghost predicate AlwaysReplays(run: Run, m: Keyspace, later: Millis)
    requires Writes(run)
  {
    forall n, t: Millis :: 0 <= n <= |run| && (n > 0 ==> run[n - 1].1 <= t) && t <= later ==> ReplaysAt(run, m, n, t)
  }

  ghost predicate ReplaysAt(run: Run, m: Keyspace, n: nat, t: Millis)
    requires Writes(run) && n <= |run|
  {
    Replayed(LogOf(run[..n]), Live(m, t), t) == Some(Live(RunDb(run[..n], m), t))
  }

  /** The log of a run of successful writes always replays to the run if and only if no write needs a key
      that expires between it and the last replay. */
  lemma LogRefinesRunIff(run: Run, m: Keyspace, later: Millis)
    requires Succeeds(run, m) && (run != [] ==> run[|run| - 1].1 <= later)
    ensures Writes(run) && (AlwaysReplays(run, m, later) <==> AllReach(run, m, later))
  {
    hide Step, Replayed, SucceededOn, Reaches, LogOf, Live;
    Prefix(run, m, later, |run|);
    if AllReach(run, m, later) {
      forall n, t: Millis | 0 <= n <= |run| && (n > 0 ==> run[n - 1].1 <= t) && t <= later
        ensures ReplaysAt(run, m, n, t)
      {
        Prefix(run, m, later, n);
        LogRefinesRun(run[..n], m, t, later);
      }
    }
    if AlwaysReplays(run, m, later) {
      forall i | 0 <= i < |run|
        ensures Reaches(RunDb(run[..i], m), run[i].0, run[i].1, later)
      {
        EachReaches(run, m, later, i);
      }
    }
  }

  lemma EachReaches(run: Run, m: Keyspace, later: Millis, i: nat)
    requires Succeeds(run, m) && i < |run| && Writes(run) && AlwaysReplays(run, m, later) && run[i].1 <= later
    ensures Reaches(RunDb(run[..i], m), run[i].0, run[i].1, later)
  {
    hide Step, Replayed, Reaches, LogOf, Live, FromFrame, Command.AofFrame, Codec.Decodable, Codec.HasHugeDeadline;
    var (c, at) := run[i];
    var before, f := RunDb(run[..i], m), LogOf(run)[i];
    assert SucceededOn(before, c, at);
    OneMore(run, m, i);
    forall t | at <= t <= later
      ensures ReplaysTo(before, c, at, t)
    {
      assert ReplaysAt(run, m, i, t) && ReplaysAt(run, m, i + 1, t);
      Codec.LogDecodes(c, at, t);
      ReplayedAppend(LogOf(run[..i]), [f], Live(m, t), t);
      ReplayedOne(f, Live(before, t), t);
    }
    WriteReplaysIff(before, c, at, later);
  }

  /** The same on bytes: a server that restarts on its log at any later reading shows what it showed
      before, and keeps the whole file, exactly if every log frame is within the limits of the parser. */
  lemma RestartKeepsEverything(run: Run, t: Millis, later: Millis)
    requires Succeeds(run, map[]) && AllReach(run, map[], later) && t <= later
    requires run != [] ==> run[|run| - 1].1 <= t
    ensures Writes(run)
    ensures Load(EncodeAll(LogOf(run)), map[], t) == Loaded(Live(RunDb(run, map[]), t), |run|, []) <==> AllWire(LogOf(run))
  {
    hide Load, Wire, Encode, Step, IsRequest, Replayed, AllReach;
    LogRefinesRun(run, map[], t, later);
    LogReloads(LogOf(run), map[], t);
    assert LogOf(run)[..|run|] == LogOf(run) && LogOf(run)[|run|..] == [];
  }

  // ---- a clock that moves during the replay ----

  /** The readings of the clock, one for every command. */
  type Clock = nat -> Millis

  /** The replay as it reads the clock: command `k` of the file is decoded and run at reading `k`. */
  ghost function LoadTicking(file: Bytes, m: Keyspace, clock: Clock, k: nat): (r: Loaded)
    decreases |file|
  {
    match Parse(file, true)
    case NeedMore(rest) => Loaded(m, 0, rest)
    case Fail(_) => Loaded(m, 0, SkipBlanks(file))
    case Got(f, rest) =>
      if !Applies(f, m, clock(k)) then Loaded(Stopped(f, m, clock(k)), 0, SkipBlanks(file))
      else
        var more := LoadTicking(rest, After(f, m, clock(k)), clock, k + 1);
        more.(applied := more.applied + 1)
  }

  /** While the clock stands still, the replay is the one at a single reading. */
  lemma {:induction false} ClockStandsStill(file: Bytes, m: Keyspace, clock: Clock, k: nat, now: Millis)
    requires forall i :: k <= i ==> clock(i) == now
    ensures LoadTicking(file, m, clock, k) == Load(file, m, now)
    decreases |file|
  {
    hide Parse, Applies, After, Stopped, SkipBlanks;
    match Parse(file, true)
    case Got(f, rest) =>
      if Applies(f, m, now) {
        ClockStandsStill(rest, After(f, m, now), clock, k + 1, now);
      }
    case _ =>
  }

  /** What memory holds once the replay of a log has run `k` of its commands. */
  ghost function Shown(run: Run, m: Keyspace, clock: Clock, k: nat): Keyspace
    requires k <= |run|
  {
    if k == 0 then m else Live(RunDb(run[..k], m), clock(k - 1))
  }

  /** The readings do not go back, begin after the run and end by `later`. */
  predicate TicksAfter(run: Run, clock: Clock, later: Millis) {
    && (forall i, j :: 0 <= i <= j < |run| ==> clock(i) <= clock(j))
    && forall i :: 0 <= i < |run| ==> run[|run| - 1].1 <= clock(i) <= later
  }

  /** Also when the clock moves on from command to command, the replay of the log of a run keeps the
      whole file and shows at its last reading what the run shows, exactly if every log frame is within
      the limits of the parser. */
  lemma RestartWhileTheClockRuns(run: Run, m: Keyspace, clock: Clock, later: Millis)
    requires Succeeds(run, m) && AllReach(run, m, later) && TicksAfter(run, clock, later)
    ensures Writes(run)
    ensures LoadTicking(EncodeAll(LogOf(run)), m, clock, 0) == Loaded(Shown(run, m, clock, |run|), |run|, [])
       <==> AllWire(LogOf(run))
  {
    hide LoadTicking, Wire, Encode, Step, Live, RunDb, SucceededOn, Reaches, TicksAfter;
    Prefix(run, m, later, |run|);
    assert LogOf(run)[0..] == LogOf(run);
    LoadsTheRest(run, m, clock, later, 0);
  }

  /** The next command of the log does at its reading what the write did. */
  lemma {:induction false} TickReplays(run: Run, m: Keyspace, clock: Clock, later: Millis, k: nat)
    requires Succeeds(run, m) && Writes(run) && AllReach(run, m, later) && TicksAfter(run, clock, later) && k < |run|
    ensures Applies(LogOf(run)[k], Shown(run, m, clock, k), clock(k))
    ensures After(LogOf(run)[k], Shown(run, m, clock, k), clock(k)) == Shown(run, m, clock, k + 1)
  {
    hide Exec, FromFrame, LogOf, Live, Reaches, Command.AofFrame, Codec.Decodable, Codec.HasHugeDeadline;
    var (c, at) := run[k];
    var f, before, t := LogOf(run)[k], RunDb(run[..k], m), clock(k);
    assert SucceededOn(before, c, at) && Reaches(before, c, at, later) && at <= t <= later;
    OneMore(run, m, k);
    LoggedWriteReplays(c, at, f, before, t, later);
    ReplayedOne(f, Live(before, t), t);
    LiveLater(before, t, t);
    if k > 0 {
      LiveLater(before, clock(k - 1), t);
    }
  }

  lemma {:induction false} LoadsTheRest(run: Run, m: Keyspace, clock: Clock, later: Millis, k: nat)
    requires Succeeds(run, m) && Writes(run) && AllReach(run, m, later) && TicksAfter(run, clock, later) && k <= |run|
    ensures LoadTicking(EncodeAll(LogOf(run)[k..]), Shown(run, m, clock, k), clock, k)
         == Loaded(Shown(run, m, clock, |run|), |run| - k, [])
       <==> AllWire(LogOf(run)[k..])
    decreases |run| - k
  {
    hide Step, FromFrame, Parse, Wire, Encode, LogOf, Live, Reaches, Command.AofFrame, Applies, After, SkipBlanks;
    var fs := LogOf(run)[k..];
    if k == |run| {
      ParseNothing();
    } else {
      var f, rest := fs[0], EncodeAll(fs[1..]);
      assert fs[1..] == LogOf(run)[k + 1..];
      assert AllWire(fs) <==> Wire(f) && AllWire(fs[1..]);
      RequestParses(f, rest);
      if Wire(f) {
        TickReplays(run, m, clock, later, k);
        LoadsTheRest(run, m, clock, later, k + 1);
      } else {
        EncodeTag(f);
        assert (Encode(f) + rest)[0] == Encode(f)[0];
      }
    }
  }
}
