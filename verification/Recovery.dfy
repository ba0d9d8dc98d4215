/** Start-up: the replay loop over a file that arrives in reads of any size (`replay`, `src/aof.rs`). */
module Recovery {
  import opened Base
  import opened Limits
  import opened Frames
  import opened Parser
  import opened Streaming
  import opened Blanks
  import opened Commands
  import opened Semantics
  import opened Laws
  import opened Replay
  import opened ReplayReads
  import opened Database
  import Listings
  import Sizes

  /** The replay has consumed all of `file` but `rest`: it made `cur` of `applied` commands, the last
      of which ended at `valid`; only blank lines follow up to `rest`. */
  ghost predicate Consumed(file: Bytes, valid: nat, rest: Bytes, cur: Keyspace, applied: nat, now: Millis) {
    && IsSuffix(rest, file)
    && valid + |rest| <= |file|
    && NoneExpired(cur, now)
    && Load(file[..|file| - |rest|], map[], now) == Loaded(cur, applied, [])
    && Load(file[..valid], map[], now) == Loaded(cur, applied, [])
    && SkipBlanks(file[valid..]) == SkipBlanks(rest)
    && (Steady(file, map[], now) ==> Steady(rest, cur, now))
  }

  /** What every replay keeps: a beginning of the file that replays, again, to the same and whole. */
  ghost predicate Keeps(file: Bytes, kept: Bytes, cur: Keyspace, applied: nat, now: Millis) {
    kept <= file && Load(kept, map[], now) == Loaded(cur, applied, [])
  }

  /** What a replay promises that does not depend on the reads: it keeps the file up to the first byte
      that cannot be replayed, give or take blank lines. */
  ghost predicate Recovers(file: Bytes, kept: Bytes, cur: Keyspace, applied: nat, now: Millis) {
    && Keeps(file, kept, cur, applied, now)
    && Load(file, map[], now) == Loaded(cur, applied, SkipBlanks(file[|kept|..]))
  }

  /** Both together. */
  ghost predicate Replays(file: Bytes, kept: Bytes, cur: Keyspace, applied: nat, now: Millis) {
    && Keeps(file, kept, cur, applied, now)
    && (Steady(file, map[], now) ==> Recovers(file, kept, cur, applied, now))
  }

  lemma Cut(file: Bytes, buf: Bytes, unread: Bytes, rest: Bytes)
    requires IsSuffix(buf + unread, file) && IsSuffix(rest, buf)
    ensures IsSuffix(rest + unread, file)
    ensures buf == buf[..|buf| - |rest|] + rest
    ensures file[..|file| - |rest + unread|] == file[..|file| - |buf + unread|] + buf[..|buf| - |rest|]
    ensures file[|file| - |rest + unread|..] == rest + unread
  {
    var piece := buf[..|buf| - |rest|];
    var before := file[..|file| - |buf + unread|];
    assert buf == piece + rest;
    assert file == before + (buf + unread);
    assert before + (buf + unread) == (before + piece) + (rest + unread);
  }

  lemma SuffixLen(s: Bytes, buf: Bytes)
    requires IsSuffix(s, buf)
    ensures |s| <= |buf|
  {
  }

  /** One more frame was applied. */
  lemma FrameConsumed(file: Bytes, valid: nat, buf: Bytes, unread: Bytes, cur: Keyspace, applied: nat, now: Millis)
    requires Consumed(file, valid, buf + unread, cur, applied, now)
    requires Parse(buf, true).Got? && Applies(Parse(buf, true).frame, cur, now)
    ensures var Got(f, rest) := Parse(buf, true);
      |rest + unread| <= |file| &&
      Consumed(file, |file| - |rest + unread|, rest + unread, After(f, cur, now), applied + 1, now)
  {
    hide Parse, Load, Applies, After, Steady, SkipBlanks, IsSuffix;
    var Got(f, rest) := Parse(buf, true);
    ParseSuffix(buf);
    SuffixLen(rest, buf);
    SuffixLen(buf + unread, file);
    Cut(file, buf, unread, rest);
    var piece := buf[..|buf| - |rest|];
    ParseRestrict(piece, rest);
    Uncat(Parse(piece, true).rest, rest);
    assert Parse(piece, true).rest == [];
    LoadStep(piece, cur, now, f, []);
    LoadEmpty(After(f, cur, now), now);
    LoadAppend(file[..|file| - |buf + unread|], piece, map[], now);
    AfterFresh(f, cur, now);
    ParseExtend(buf, unread);
    SteadyGot(buf + unread, cur, now, f, rest + unread);
  }

  /** The replay is over, whichever of the two ends it cuts at: what was read so far ends it, and if the
      rest is steady, no read to come can change that. */
  lemma Stops(file: Bytes, valid: nat, buf: Bytes, unread: Bytes, cur: Keyspace, applied: nat, now: Millis)
    requires Consumed(file, valid, buf + unread, cur, applied, now)
    requires var p := Parse(buf, true);
      || p.Fail?
      || (p.NeedMore? && (unread == [] || |p.rest| > MAX_BUFFERED_FRAME_BYTES))
      || (p.Got? && !Applies(p.frame, cur, now))
    ensures Replays(file, file[..valid], cur, applied, now)
    ensures Replays(file, file[..|file| - |buf + unread|], cur, applied, now)
  {
    hide Parse, Load, Applies, After, Stopped, Steady, SkipBlanks;
    var rest := buf + unread;
    SuffixSplit(rest, file);
    ParseExtend(buf, unread);
    assert unread == [] ==> rest == buf;
    if Steady(file, map[], now) {
      if Parse(rest, true).Got? && Applies(Parse(rest, true).frame, cur, now) {
        SteadyGot(rest, cur, now, Parse(rest, true).frame, Parse(rest, true).rest);
        assert false;
      }
      StopsUnchanged(rest, cur, now);
      LoadAppend(file[..|file| - |rest|], rest, map[], now);
    }
  }

  /** The store applied the command the plain map applies. */
  lemma StoreFollows(was: Keyspace, cur: Keyspace, c: Command, now: Millis, after: Keyspace, r: Frame)
    requires Refines(was, c, now, after, r) && Live(was, now) == cur
    ensures r.Error? <==> Step(cur, c, now).reply.Error?
    ensures Live(after, now) == Step(cur, c, now).db
  {
    hide Exec, ReplyMatches;
    Listings.SameRefusals(was, c, now, r);
    LiveIsFresh(was, now);
    LiveIsFresh(cur, now);
  }

  /** The same with what is still to come split into what was read and the reads that follow; `end`
      is what the whole replay comes to. */
  ghost predicate Replaying(file: Bytes, valid: nat, buf: Bytes, unread: seq<Bytes>, cur: Keyspace, applied: nat,
                            now: Millis, end: Progress) {
    && Consumed(file, valid, buf + Flatten(unread), cur, applied, now)
    && end == LoadReads(buf, unread, cur, now).Ahead(applied)
  }

  lemma Begins(chunks: seq<Bytes>, now: Millis)
    ensures Replaying(Flatten(chunks), 0, [], chunks, map[], 0, now, LoadReads([], chunks, map[], now))
    ensures Live(map[], now) == map[]
  {
    hide LoadReads, Flatten, Load, Steady, SkipBlanks;
    var file := Flatten(chunks);
    assert [] + file == file && file[..0] == [] && file[0..] == file;
    LoadEmpty(map[], now);
  }

  lemma ReadsOn(file: Bytes, valid: nat, buf: Bytes, unread: seq<Bytes>, cur: Keyspace, applied: nat, now: Millis,
                end: Progress)
    requires Replaying(file, valid, buf, unread, cur, applied, now, end) && unread != [] && NoneEmpty(unread)
    requires buf == [] || (Parse(buf, true) == NeedMore(buf) && |buf| <= MAX_BUFFERED_FRAME_BYTES)
    ensures Replaying(file, valid, buf + unread[0], unread[1..], cur, applied, now, end)
    ensures |Flatten(unread)| == |unread[0]| + |Flatten(unread[1..])|
    ensures unread[0] != [] && NoneEmpty(unread[1..])
  {
    hide Consumed, LoadReads, Parse, Flatten, Applies, After, Stopped;
    ParseNothing();
    FlattenStep(buf, unread);
    FlattenStep([], unread);
    LoadReadsStep(buf, unread, cur, now);
  }

  lemma SkipsBlanks(file: Bytes, valid: nat, buf: Bytes, unread: seq<Bytes>, cur: Keyspace, applied: nat, now: Millis,
                    end: Progress)
    requires Replaying(file, valid, buf, unread, cur, applied, now, end) && Parse(buf, true).NeedMore?
    ensures Replaying(file, valid, Parse(buf, true).rest, unread, cur, applied, now, end)
    ensures Parse(Parse(buf, true).rest, true) == Parse(buf, true)
  {
    hide Parse, Load, LoadReads, Steady, SkipBlanks, IsSuffix, Applies, After, Stopped, Flatten;
    var rest, more := Parse(buf, true).rest, Flatten(unread);
    ParseSkipsBlanks(buf, true);
    ParseSuffix(buf);
    SuffixLen(rest, buf);
    Cut(file, buf, more, rest);
    BlanksLoad(buf, cur, now);
    LoadAppend(file[..|file| - |buf + more|], buf[..|buf| - |rest|], map[], now);
    SkipBlanksExtend(buf, more);
    ParseExtend(buf, more);
    SteadySame(buf + more, rest + more, cur, now);
    LoadReadsStep(buf, unread, cur, now);
    LoadReadsStep(rest, unread, cur, now);
  }

  /** Every reason to stop, save a failed command and the end of the file. */
  lemma WhenStops(file: Bytes, valid: nat, buf: Bytes, unread: seq<Bytes>, cur: Keyspace, applied: nat, now: Millis,
                  end: Progress)
    requires Replaying(file, valid, buf, unread, cur, applied, now, end)
    ensures valid + |buf| + |Flatten(unread)| <= |file|
    ensures var p := Parse(buf, true);
      (p.Fail? || (p.NeedMore? && |p.rest| > MAX_BUFFERED_FRAME_BYTES) || (p.Got? && FromFrame(p.frame, now).Err?)) ==>
        && end == Progress(cur, applied)
        && Replays(file, file[..valid], cur, applied, now)
        && Replays(file, file[..|file| - (|buf| + |Flatten(unread)|)], cur, applied, now)
  {
    hide Parse, Load, SkipBlanks, IsSuffix, Replays, FromFrame, Step, Steady, LoadReads, Flatten;
    var p := Parse(buf, true);
    if p.Fail? || (p.NeedMore? && |p.rest| > MAX_BUFFERED_FRAME_BYTES) || (p.Got? && FromFrame(p.frame, now).Err?) {
      Stops(file, valid, buf, Flatten(unread), cur, applied, now);
      LoadReadsStep(buf, unread, cur, now);
    }
  }

  /** The end of the file stops the replay; with nothing left over, the whole file is kept. */
  lemma AtEnd(file: Bytes, valid: nat, buf: Bytes, cur: Keyspace, applied: nat, now: Millis, end: Progress)
    requires Replaying(file, valid, buf, [], cur, applied, now, end)
    requires buf == [] || Parse(buf, true).NeedMore?
    ensures valid <= |file| && end == Progress(cur, applied) && Replays(file, file[..valid], cur, applied, now)
    ensures buf == [] ==> Replays(file, file, cur, applied, now)
  {
    hide Parse, Load, SkipBlanks, IsSuffix, Replays, Applies, Steady, LoadReads;
    FlattenNone(buf);
    ParseNothing();
    Stops(file, valid, buf, [], cur, applied, now);
    LoadReadsStep(buf, [], cur, now);
    assert file[..|file|] == file;
  }

  /** A command of the log was run on the store: an error ends the replay, success moves it on. */
  lemma CommandReplayed(file: Bytes, valid: nat, buf: Bytes, unread: seq<Bytes>, cur: Keyspace, applied: nat, now: Millis,
                        end: Progress, c: Command, was: Keyspace, after: Keyspace, reply: Frame)
    requires Replaying(file, valid, buf, unread, cur, applied, now, end) && Live(was, now) == cur
    requires Parse(buf, true).Got? && FromFrame(Parse(buf, true).frame, now) == Ok(c)
    requires Refines(was, c, now, after, reply)
    ensures |buf| + |Flatten(unread)| <= |file|
    ensures reply.Error? ==>
      && Live(after, now) == cur && end == Progress(cur, applied)
      && Replays(file, file[..|file| - (|buf| + |Flatten(unread)|)], cur, applied, now)
    ensures !reply.Error? ==> Applies(Parse(buf, true).frame, cur, now)
    ensures !reply.Error? ==> Live(after, now) == After(Parse(buf, true).frame, cur, now)
    ensures !reply.Error? ==> |Parse(buf, true).rest| + |Flatten(unread)| <= |file|
    ensures !reply.Error? ==>
      Replaying(file, |file| - (|Parse(buf, true).rest| + |Flatten(unread)|), Parse(buf, true).rest, unread,
                After(Parse(buf, true).frame, cur, now), applied + 1, now, end)
  {
    hide Parse, Load, SkipBlanks, IsSuffix, Replays, FromFrame, Steady, Refines, Live, Exec, LoadReads, Flatten;
    var frame := Parse(buf, true).frame;
    StoreFollows(was, cur, c, now, after, reply);
    LoadReadsStep(buf, unread, cur, now);
    if reply.Error? {
      LiveIsFresh(cur, now);
      Sizes.ReceivedErrorsChangeNothing(buf, cur, now);
      StopsUnchanged(buf, cur, now);
      Stops(file, valid, buf, Flatten(unread), cur, applied, now);
    } else {
      FrameConsumed(file, valid, buf, Flatten(unread), cur, applied, now);
    }
  }

  /** Replays a file into an empty store; `chunks` is how its bytes arrive, a read being empty only at
      the end of the file. `kept` is the file afterwards: when the file's length could not be measured,
      it is not cut. */
  method ReplayFile(db: Db, chunks: seq<Bytes>, measured: bool, now: Millis) returns (applied: nat, kept: Bytes)
    requires db.Valid() && db.Contents() == map[]
    requires NoneEmpty(chunks)
    modifies db.shards
    ensures db.Valid()
    ensures Progress(Live(db.Contents(), now), applied) == LoadReads([], chunks, map[], now)
    ensures if measured then Replays(Flatten(chunks), kept, Live(db.Contents(), now), applied, now)
            else kept == Flatten(chunks)
  {
    hide *;
    var file := Flatten(chunks);
    var originalLen := if measured then |file| else 0;
    var buf: Bytes, unread, totalRead, validLen: nat, eof := [], chunks, 0, 0, false;
    var truncateTo: Option<nat> := None;
    applied := 0;
    kept := file;
    ghost var cur: Keyspace := map[];
    ghost var end := LoadReads([], chunks, map[], now);
    Begins(chunks, now);
    while true
      invariant db.Valid() && Live(db.Contents(), now) == cur
      invariant totalRead + |Flatten(unread)| == |file| && |buf| <= totalRead
      invariant truncateTo.None? && Replaying(file, validLen, buf, unread, cur, applied, now, end)
      invariant NoneEmpty(unread) && (eof ==> unread == [])
      decreases |unread|, !eof
    {
      while buf != []
        invariant db.Valid() && Live(db.Contents(), now) == cur
        invariant |buf| <= totalRead && truncateTo.None?
        invariant Replaying(file, validLen, buf, unread, cur, applied, now, end)
        decreases |buf|
      {
        ghost var storeWas := db.Contents();
        var frameStart := totalRead - |buf|;
        WhenStops(file, validLen, buf, unread, cur, applied, now, end);
        match Parse(buf, true)
        case NeedMore(rest) =>
          SkipsBlanks(file, validLen, buf, unread, cur, applied, now, end);
          buf := rest;
          if |buf| > MAX_BUFFERED_FRAME_BYTES {
            truncateTo := Some(validLen);
          }
          break;
        case Got(frame, rest) =>
          match FromFrame(frame, now) {
            case Ok(c) =>
              var reply := db.Apply(c, now);
              CommandReplayed(file, validLen, buf, unread, cur, applied, now, end, c, storeWas, db.Contents(), reply);
              if reply.Error? {
                truncateTo := Some(frameStart);
                break;
              }
              buf := rest;
              cur := After(frame, cur, now);
              applied := applied + 1;
              validLen := totalRead - |buf|;
            case Err(_) =>
              truncateTo := Some(frameStart);
              break;
          }
        case Fail(_) =>
          truncateTo := Some(validLen);
          break;
      }
      if truncateTo.Some? {
        break;
      }
      if eof {
        AtEnd(file, validLen, buf, cur, applied, now, end);
        if buf != [] {
          truncateTo := Some(validLen);
        }
        break;
      }
      if unread != [] {
        ReadsOn(file, validLen, buf, unread, cur, applied, now, end);
      }
      var n := if unread == [] then 0 else |unread[0]|;
      if n == 0 {
        eof := true;
      } else {
        buf, unread := buf + unread[0], unread[1..];
        totalRead := totalRead + n;
      }
    }
    if truncateTo.Some? {
      if truncateTo.value < originalLen {
        kept := file[..truncateTo.value];
      }
    }
  }

}
