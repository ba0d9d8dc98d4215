/** The replay of a file that arrives in reads, and exactly when the reads do not matter to it. */
module ReplayReads {
  import opened Base
  import opened Limits
  import opened Frames
  import opened Parser
  import opened Streaming
  import opened Blanks
  import opened Commands
  import opened Semantics
  import opened Laws
  import opened Replay
  import Reads

  /** No frame that the replay applies has a header line of `MAX_LINE_LEN` bytes or more. */
  ghost predicate Steady(file: Bytes, m: Keyspace, now: Millis)
    decreases |file|
  {
    var next := Parse(file, true);
    next.Got? && Applies(next.frame, m, now) ==>
      Parse(file, false) == next && Steady(next.rest, After(next.frame, m, now), now)
  }

  /** The keyspace after a replay and how many commands were applied. */
  datatype Progress = Progress(db: Keyspace, applied: nat) {
    function Ahead(n: nat): Progress {
      Progress(db, n + applied)
    }
  }

  /** Replays what is in the buffer, then appends the next read and goes on. */
  ghost function LoadReads(buf: Bytes, chunks: seq<Bytes>, m: Keyspace, now: Millis): Progress
    decreases |chunks|, |buf|
  {
    match Parse(buf, true)
    case Got(f, rest) =>
      if Applies(f, m, now) then LoadReads(rest, chunks, After(f, m, now), now).Ahead(1)
      else Progress(Stopped(f, m, now), 0)
    case Fail(_) => Progress(m, 0)
    case NeedMore(rest) =>
      if |rest| > MAX_BUFFERED_FRAME_BYTES || chunks == [] then Progress(m, 0)
      else LoadReads(rest + chunks[0], chunks[1..], m, now)
  }

  ghost predicate LoadsLike(p: Progress, r: Loaded) {
    p == Progress(r.db, r.applied)
  }

  lemma SteadyGot(file: Bytes, m: Keyspace, now: Millis, f: Frame, rest: Bytes)
    requires Parse(file, true) == Got(f, rest) && Applies(f, m, now)
    ensures Steady(file, m, now) <==> Parse(file, false) == Got(f, rest) && Steady(rest, After(f, m, now), now)
  {
    hide Parse, Applies, After;
  }

  lemma SteadySame(a: Bytes, b: Bytes, m: Keyspace, now: Millis)
    requires Parse(a, true) == Parse(b, true) && Parse(a, false) == Parse(b, false)
    ensures Steady(a, m, now) == Steady(b, m, now)
  {
    hide Parse, Applies, After;
  }

  lemma LoadReadsStep(buf: Bytes, chunks: seq<Bytes>, m: Keyspace, now: Millis)
    ensures var p, r := Parse(buf, true), LoadReads(buf, chunks, m, now);
      && (p.Got? && Applies(p.frame, m, now) ==>
            r == LoadReads(p.rest, chunks, After(p.frame, m, now), now).Ahead(1))
      && (p.Got? && !Applies(p.frame, m, now) ==> r == Progress(Stopped(p.frame, m, now), 0))
      && (p.Fail? ==> r == Progress(m, 0))
      && (p.NeedMore? && (|p.rest| > MAX_BUFFERED_FRAME_BYTES || chunks == []) ==> r == Progress(m, 0))
      && (p.NeedMore? && |p.rest| <= MAX_BUFFERED_FRAME_BYTES && chunks != [] ==>
            r == LoadReads(p.rest + chunks[0], chunks[1..], m, now))
  {
    hide Parse, Applies, After, Stopped;
  }

  /** A steady replay does not depend on the reads. */
  lemma {:induction false} SteadyReads(buf: Bytes, chunks: seq<Bytes>, m: Keyspace, now: Millis)
    requires NoneExpired(m, now) && Steady(buf + Flatten(chunks), m, now)
    ensures LoadsLike(LoadReads(buf, chunks, m, now), Load(buf + Flatten(chunks), m, now))
    decreases |chunks|, |buf|
  {
    hide Parse, Applies, After, Stopped, Load, Steady, LoadReads, Flatten, SkipBlanks;
    var unread := Flatten(chunks);
    var whole := buf + unread;
    ParseExtend(buf, unread);
    LoadReadsStep(buf, chunks, m, now);
    match Parse(buf, true)
    case Got(f, rest) =>
      if Applies(f, m, now) {
        LoadStep(whole, m, now, f, rest + unread);
        SteadyGot(whole, m, now, f, rest + unread);
        AfterFresh(f, m, now);
        SteadyReads(rest, chunks, After(f, m, now), now);
      } else {
        StopsUnchanged(whole, m, now);
        StopsUnchanged(buf, m, now);
      }
    case Fail(reason) =>
      if Parse(whole, true).Got? && Applies(Parse(whole, true).frame, m, now) {
        SteadyGot(whole, m, now, Parse(whole, true).frame, Parse(whole, true).rest);
        assert false;
      }
      StopsUnchanged(whole, m, now);
    case NeedMore(rest) =>
      if |rest| > MAX_BUFFERED_FRAME_BYTES {
        StopsUnchanged(whole, m, now);
      } else if chunks == [] {
        FlattenNone(buf);
        StopsUnchanged(whole, m, now);
      } else {
        var more := (rest + chunks[0]) + Flatten(chunks[1..]);
        FlattenStep(rest, chunks);
        ParseSkipsBlanks(buf, true);
        SkipBlanksExtend(buf, unread);
        LoadSame(whole, more, m, now);
        SteadySame(whole, more, m, now);
        SteadyReads(rest + chunks[0], chunks[1..], m, now);
      }
  }

  /** A replay that is not steady applies fewer commands if one read ends inside a certain line. */
  lemma {:induction false} UnsteadyReads(file: Bytes, m: Keyspace, now: Millis) returns (n: nat)
    requires !Steady(file, m, now)
    ensures 0 < n < |file|
    ensures LoadReads(file[..n], [file[n..]], m, now).applied < Load(file, m, now).applied
    decreases |file|
  {
    hide Parse, Applies, After, Stopped, Load, LoadReads;
    var Got(f, rest) := Parse(file, true);
    ParseLaxity(file);
    LoadStep(file, m, now, f, rest);
    if Parse(file, false) == Got(f, rest) {
      SteadyGot(file, m, now, f, rest);
      var k := UnsteadyReads(rest, After(f, m, now), now);
      ParseSuffix(file);
      n := |file| - |rest[k..]|;
      assert IsSuffix(rest[k..], file);
      KeptRestricts(file, f, rest, rest[k..]);
      assert file[n..] == rest[k..] && rest[..|rest| - |rest[k..]|] == rest[..k];
      LoadReadsStep(file[..n], [file[n..]], m, now);
    } else {
      n := Reads.ParseRefused(file);
      LoadReadsStep(file[..n], [file[n..]], m, now);
      ParseNothing();
      assert file[..|file|] == file && file[..0] == [];
    }
  }

  /** A replay yields the same keyspace from the same number of commands for every way to read the
      file, exactly if no frame it applies has a header line of 1 MiB or more. */
  lemma ReplayIgnoresReadsIff(file: Bytes, m: Keyspace, now: Millis)
    requires NoneExpired(m, now)
    ensures (forall chunks :: Flatten(chunks) == file && NoneEmpty(chunks) ==>
              LoadsLike(LoadReads([], chunks, m, now), Load(file, m, now)))
       <==> Steady(file, m, now)
  {
    hide Parse, Steady, LoadReads, Load, Flatten, Applies, After, Stopped;
    if Steady(file, m, now) {
      forall chunks | Flatten(chunks) == file && NoneEmpty(chunks)
        ensures LoadsLike(LoadReads([], chunks, m, now), Load(file, m, now))
      {
        assert [] + file == file;
        SteadyReads([], chunks, m, now);
      }
    } else {
      var n := UnsteadyReads(file, m, now);
      var chunks := [file[..n], file[n..]];
      Reads.FlattenTwo(file[..n], file[n..]);
      assert file[..n] + file[n..] == file;
      Reads.NextRead(file[..n], file[n..]);
      ParseNothing();
      LoadReadsStep([], chunks, m, now);
      assert Flatten(chunks) == file && NoneEmpty(chunks);
      assert !LoadsLike(LoadReads([], chunks, m, now), Load(file, m, now));
    }
  }

}
