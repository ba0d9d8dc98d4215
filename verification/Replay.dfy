/** Replaying a log (`replay` in `src/aof.rs`). */
module Replay {
  import opened Base
  import opened Frames
  import opened Parser
  import opened Streaming
  import opened Blanks
  import opened Commands
  import opened Semantics
  import opened Laws
  import Sizes

  // ---- one pass over the bytes ----

  /** The keyspace after a replay, how many commands were applied, and the tail that is cut off. */
  datatype Loaded = Loaded(db: Keyspace, applied: nat, tail: Bytes)

  /** A command of the log: its frame decodes, and it replies with no error. */
  ghost predicate Applies(f: Frame, m: Keyspace, now: Millis) {
    var c := FromFrame(f, now);
    c.Ok? && !Step(m, c.value, now).reply.Error?
  }

  ghost function After(f: Frame, m: Keyspace, now: Millis): Keyspace
    requires Applies(f, m, now)
  {
    Step(m, FromFrame(f, now).value, now).db
  }

  /** What stopping at this frame leaves in memory: an erroring command has been applied. */
  ghost function Stopped(f: Frame, m: Keyspace, now: Millis): Keyspace {
    var c := FromFrame(f, now);
    if c.Ok? then Step(m, c.value, now).db else m
  }

  ghost function Load(file: Bytes, m: Keyspace, now: Millis): (r: Loaded)
    ensures |r.tail| <= |file|
    decreases |file|
  {
    match Parse(file, true)
    case NeedMore(rest) => Loaded(m, 0, rest)
    case Fail(_) => Loaded(m, 0, SkipBlanks(file))
    case Got(f, rest) =>
      if !Applies(f, m, now) then Loaded(Stopped(f, m, now), 0, SkipBlanks(file))
      else
        var more := Load(rest, After(f, m, now), now);
        more.(applied := more.applied + 1)
  }

  /** What is cut off is a tail of the file. */
  lemma {:induction false} LoadTailSuffix(file: Bytes, m: Keyspace, now: Millis)
    ensures IsSuffix(Load(file, m, now).tail, file)
    decreases |file|
  {
    hide Parse, SkipBlanks, Applies, After, Stopped, IsSuffix;
    SkipBlanksSuffix(file);
    match Parse(file, true)
    case Got(f, rest) =>
      assert IsSuffix(rest, file) by { ParseSuffix(file); }
      if Applies(f, m, now) {
        LoadTailSuffix(rest, After(f, m, now), now);
        SuffixOfSuffix(Load(rest, After(f, m, now), now).tail, rest, file);
      }
    case NeedMore(rest) => ParseSuffix(file);
    case Fail(_) =>
  }

  lemma LoadStep(file: Bytes, m: Keyspace, now: Millis, f: Frame, rest: Bytes)
    requires Parse(file, true) == Got(f, rest) && Applies(f, m, now)
    ensures var more := Load(rest, After(f, m, now), now);
      Load(file, m, now) == Loaded(more.db, more.applied + 1, more.tail)
  {
    hide Parse, Applies, After;
  }

  lemma LoadEmpty(m: Keyspace, now: Millis)
    ensures Load([], m, now) == Loaded(m, 0, [])
  {
    assert Parse([], true) == NeedMore([]);
  }

  lemma LoadSame(a: Bytes, b: Bytes, m: Keyspace, now: Millis)
    requires Parse(a, true) == Parse(b, true) && SkipBlanks(a) == SkipBlanks(b)
    ensures Load(a, m, now) == Load(b, m, now)
  {
    hide Parse, SkipBlanks, Applies, After, Stopped;
  }

  /** Blank lines before the bytes behind them load to nothing. */
  lemma LoadBehindBlanks(a: Bytes, b: Bytes, m: Keyspace, now: Millis)
    requires Parse(a, true) == NeedMore([])
    ensures Load(a, m, now) == Loaded(m, 0, []) && Load(a + b, m, now) == Load(b, m, now)
  {
    hide Parse, Load, Applies, SkipBlanks;
    LoadStopsWithTail(a, m, now);
    ParseExtend(a, b);
    ParseSkipsBlanks(a, true);
    assert [] + b == b;
    SkipBlanksExtend(a, b);
    LoadSame(a + b, b, m, now);
  }

  /** Replaying a file that is kept whole, followed by more bytes, is replaying the rest from there. */
  lemma {:induction false} LoadAppend(a: Bytes, b: Bytes, m: Keyspace, now: Millis)
    requires Load(a, m, now).tail == []
    ensures var first := Load(a, m, now);
      var more := Load(b, first.db, now);
      Load(a + b, m, now) == Loaded(more.db, first.applied + more.applied, more.tail)
    decreases |a|
  {
    hide Parse, Load, Applies, After, SkipBlanks;
    LoadStopsWithTail(a, m, now);
    if Parse(a, true).Got? {
      var Got(f, rest) := Parse(a, true);
      ParseIsShorter(a);
      LoadStep(a, m, now, f, rest);
      LoadAppend(rest, b, After(f, m, now), now);
      ParseExtend(a, b);
      LoadStep(a + b, m, now, f, rest + b);
    } else {
      LoadBehindBlanks(a, b, m, now);
    }
  }

  /** Stopping at an error always cuts something off. */
  lemma LoadStopsWithTail(a: Bytes, m: Keyspace, now: Millis)
    ensures var r := Load(a, m, now);
      && (Parse(a, true).Fail? ==> r.tail != [])
      && (Parse(a, true).Got? && !Applies(Parse(a, true).frame, m, now) ==> r.tail != [])
      && (Parse(a, true).NeedMore? ==> r == Loaded(m, 0, Parse(a, true).rest))
  {
    hide Parse, Applies, After, Stopped, SkipBlanks;
    ParseSkipsBlanks(a, true);
    ParseNothing();
  }

  // ---- the kept prefix ----

  /** Everything after the kept prefix can be cut: a second replay keeps all of it, and yields the
      same keyspace from the same number of commands. */
  lemma {:induction false} KeptPrefixReloads(file: Bytes, m: Keyspace, now: Millis)
    requires NoneExpired(m, now)
    ensures var r := Load(file, m, now);
      Load(file[..|file| - |r.tail|], m, now) == Loaded(r.db, r.applied, [])
    decreases |file|
  {
    hide Parse, SkipBlanks, Applies, After, Stopped, Load;
    var r := Load(file, m, now);
    var kept := file[..|file| - |r.tail|];
    match Parse(file, true)
    case Got(f, rest) =>
      if Applies(f, m, now) {
        LoadStep(file, m, now, f, rest);
        var cut := Load(rest, After(f, m, now), now).tail;
        LoadTailSuffix(rest, After(f, m, now), now);
        ParseSuffix(file);
        SuffixOfSuffix(cut, rest, file);
        KeptRestricts(file, f, rest, cut);
        var restKept := rest[..|rest| - |cut|];
        LoadStep(kept, m, now, f, restKept);
        AfterFresh(f, m, now);
        KeptPrefixReloads(rest, After(f, m, now), now);
      } else {
        StopsUnchanged(file, m, now);
        BlanksLoad(file, m, now);
      }
    case NeedMore(rest) =>
      StopsUnchanged(file, m, now);
      BlanksLoad(file, m, now);
    case Fail(_) =>
      StopsUnchanged(file, m, now);
      BlanksLoad(file, m, now);
  }

  lemma AfterFresh(f: Frame, m: Keyspace, now: Millis)
    requires Applies(f, m, now) && NoneExpired(m, now)
    ensures NoneExpired(After(f, m, now), now)
  {
    hide FromFrame, Exec;
    var c := FromFrame(f, now).value;
    assert Live(m, now) == m;
    if c.IsWrite() {
      ExecLater(c, m, now, now);
    } else {
      OnlyMutatedKeysChange(c, m, now);
    }
  }

  /** Where the replay stops, memory is as before, and the cut begins after the blank lines. */
  lemma StopsUnchanged(file: Bytes, m: Keyspace, now: Millis)
    requires NoneExpired(m, now)
    requires Parse(file, true).Got? ==> !Applies(Parse(file, true).frame, m, now)
    ensures Load(file, m, now) == Loaded(m, 0, SkipBlanks(file))
    ensures Parse(file, true).Got? ==> Stopped(Parse(file, true).frame, m, now) == m
  {
    hide Parse, SkipBlanks, FromFrame, Exec;
    ParseSkipsBlanks(file, true);
    if Parse(file, true).Got? {
      var f := Parse(file, true).frame;
      if FromFrame(f, now).Ok? {
        Sizes.ReceivedErrorsChangeNothing(file, Live(m, now), now);
        assert Live(m, now) == m;
      }
    }
  }

  /** The blank lines before the cut replay to nothing. */
  lemma {:induction false} BlanksLoad(file: Bytes, m: Keyspace, now: Millis)
    ensures Load(file[..|file| - |SkipBlanks(file)|], m, now) == Loaded(m, 0, [])
    decreases |file|
  {
    hide StartsBlank, AfterBlank, Parse, Load;
    var n := |file| - |SkipBlanks(file)|;
    var blanks := file[..n];
    if StartsBlank(file) {
      BlanksLoad(AfterBlank(file), m, now);
      BlankLineStands(file, n);
      ParseAfterBlank(blanks, true);
      LoadSame(blanks, AfterBlank(blanks), m, now);
    } else {
      assert blanks == [];
      LoadEmpty(m, now);
    }
  }
}
