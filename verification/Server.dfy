/** The write branch of a connection and the rewrite task, run on the store and the writer
    (`handle` in `src/server.rs`, `rewrite_inner` in `src/aof.rs`). Each runs here without interruption;
    the interleavings are the subject of `AofMachine`. */
module Server {
  import opened Base
  import opened Frames
  import opened Parser
  import opened Streaming
  import opened Commands
  import opened Semantics
  import opened Replay
  import opened SnapshotFile
  import opened Rebuild
  import opened Database
  import opened AofDisk
  import opened AofWriter
  import opened AofGuarantees
  import opened Recovery
  import Laws
  import Sizes

  const AOF_FAILED: Frame := Error("ERR AOF write failed")

  /** What a write leaves behind: an error is not logged; a write that cannot be logged is undone; a
      write that succeeds is in the store and, durably, in the log. */
  ghost predicate ServedWrite(before: Keyspace, w: WriterState, c: Command, now: Millis,
                              applied: Keyspace, reply: Frame, x: WriteChoice,
                              after: Keyspace, w': WriterState, r: Frame)
    requires c.AofFrame(now).Some?
  {
    var bytes := Encode(c.AofFrame(now).value);
    && Refines(before, c, now, applied, reply)
    && if reply.Error? then after == applied && w' == w && r == reply
       else
         && WriteSensible(x, bytes)
         && w' == WriteResult(w, bytes, x).after
         && if WriteResult(w, bytes, x).ok then after == applied && r == reply
            else after == before && r == AOF_FAILED
  }

  /** `AofHandle::write`, served by the writer at once. */
  method AppendToLog(writer: Writer, frame: Frame) returns (ok: bool, ghost x: WriteChoice)
    modifies writer, writer.rewriteBuffer
    ensures WriteSensible(x, Encode(frame))
    ensures var h := WriteResult(old(writer.State()), Encode(frame), x); writer.State() == h.after && ok == h.ok
  {
    hide Encode;
    if writer.writeFailed {
      return false, WriteChoice(0, false, false, false, false);
    }
    var buf := new OutBuffer();
    buf.PutFrame(frame);
    assert buf.bytes == Encode(frame);
    ok, x := writer.HandleWrite(buf.bytes);
  }

  /** A write command under the gate: save the keys, apply, log, and restore the keys if that fails. */
  method WriteBranch(db: Db, writer: Writer, c: Command, now: Millis)
    returns (r: Frame, ghost applied: Keyspace, ghost reply: Frame, ghost x: WriteChoice)
    requires db.Valid() && c.IsWrite() && c.AofFrame(now).Some?
    modifies db.shards, writer, writer.rewriteBuffer
    ensures db.Valid()
    ensures ServedWrite(old(db.Contents()), old(writer.State()), c, now, applied, reply, x, db.Contents(), writer.State(), r)
  {
    hide *;
    x := WriteChoice(0, false, false, false, false);
    ghost var before, w := db.Contents(), writer.State();
    var frame := c.AofFrame(now).value;
    var rollback := db.SnapshotEntries(c.MutatedKeys());
    r := db.Apply(c, now);
    applied, reply := db.Contents(), r;
    if !r.Error? {
      var ok;
      ok, x := AppendToLog(writer, frame);
      if !ok {
        db.RestoreEntries(rollback);
        UndoneByRestore(before, c, now, applied, reply, rollback);
        r := AOF_FAILED;
      }
    }
    Branches(before, w, c, now, applied, reply, x, db.Contents(), writer.State(), r);
  }

  lemma UndoneByRestore(before: Keyspace, c: Command, now: Millis, applied: Keyspace, reply: Frame, rollback: Snapshot)
    requires Refines(before, c, now, applied, reply) && IsSnapshot(rollback, c.MutatedKeys(), before)
    ensures Restored(applied, rollback) == before
  {
    hide Step, IsSnapshot, ReplyMatches, Restored, Live, Command.MutatedKeys;
    RestoreUndoes(before, applied, c.MutatedKeys(), rollback);
  }

  lemma Branches(before: Keyspace, w: WriterState, c: Command, now: Millis, applied: Keyspace, reply: Frame, x: WriteChoice,
                 after: Keyspace, w': WriterState, r: Frame)
    requires c.AofFrame(now).Some? && Refines(before, c, now, applied, reply)
    requires reply.Error? ==> after == applied && w' == w && r == reply
    requires !reply.Error? ==>
      var bytes := Encode(c.AofFrame(now).value);
      WriteSensible(x, bytes) && w' == WriteResult(w, bytes, x).after &&
      if WriteResult(w, bytes, x).ok then after == applied && r == reply else after == before && r == AOF_FAILED
    ensures ServedWrite(before, w, c, now, applied, reply, x, after, w', r)
  {
    hide Refines, WriteResult, Encode, WriteSensible;
  }

  /** The log is the printed snapshot of what is live in the store, durably. */
  ghost predicate SnapshotInPlace(contents: Keyspace, now: Millis, later: Millis, entries: seq<(Bytes, Entry)>,
                                  pieces: seq<seq<Frame>>, w: WriterState) {
    && Holds(entries, Live(contents, now))
    && |pieces| == |entries| && AreSnapshotFrames(pieces, entries, seq(|entries|, _ => later))
    && w.disk.active == Synced(EncodeAll(Flatten(pieces))) && w.size == |w.disk.active.bytes|
  }

  /** A rewrite that meets no other write: when it succeeds, the log is the printed snapshot of the
      store, durably; when it fails, the log is as it was, unless all that failed is to make its rename durable. */
  method RewriteNow(db: Db, writer: Writer, now: Millis, later: Millis)
    returns (ok: bool, ghost entries: seq<(Bytes, Entry)>, ghost pieces: seq<seq<Frame>>)
    requires db.Valid()
    modifies writer
    ensures !writer.ill ==>
      if ok then SnapshotInPlace(db.Contents(), now, later, entries, pieces, writer.State()) && writer.disk.previous == []
      else
        || (writer.disk.active == old(writer.disk.active) && writer.currentSize == old(writer.currentSize)
              && writer.disk.previous == old(writer.disk.previous))
        || (SnapshotInPlace(db.Contents(), now, later, entries, pieces, writer.State())
              && writer.disk.previous == old(writer.disk.previous) + [old(writer.disk.active)])
    ensures writer.rewriteBuffer == null || !ok
  {
    hide Encode, EncodeAll, AreSnapshotFrames, Holds, Live;
    entries, pieces := [], [];
    ok := writer.HandleStartRewrite();
    if !ok {
      return;
    }
    var snapshot := db.AofSnapshotEntries(now);
    entries := snapshot;
    var w, file;
    w, file, pieces := WriteSnapshotEntries(snapshot, seq(|snapshot|, _ => later));
    if !w.Written? {
      writer.HandleAbortRewrite();
      return false, entries, pieces;
    }
    writer.disk := writer.disk.(temp := Some(Synced(file.bytes)));
    ghost var before := writer.State();
    ghost var x;
    ok, x := writer.HandleFinishRewrite();
    FinishedClean(before, x, file.bytes);
  }

  lemma FinishedClean(w: WriterState, x: FinishChoice, snapshot: Bytes)
    requires w.buffer == Some(EMPTY_BUFFER) && FinishSensible(x, Buffered(w)) && w.disk.temp == Some(Synced(snapshot))
    ensures var h := FinishResult(w, x);
      && h.after.buffer.None?
      && (!h.after.ill ==>
           if h.ok || h.after.disk.previous != w.disk.previous then
             && h.after.disk.active == Synced(snapshot) && h.after.size == |snapshot|
             && h.after.disk.previous == if h.ok then [] else w.disk.previous + [w.disk.active]
           else h.after.disk.active == w.disk.active && h.after.size == w.size)
  {
    assert Buffered(w) == [];
    assert snapshot + [][..x.written] == snapshot;
  }

  /** Such a log reloads as the store that was rewritten, if and only if every deadline comes back and
      every chunk of a list or hash has at most 1048574 parts. */
  lemma RewrittenLogReloads(contents: Keyspace, entries: seq<(Bytes, Entry)>, pieces: seq<seq<Frame>>, now: Millis, later: Millis, T: Millis)
    requires Holds(entries, Live(contents, now)) && now <= later <= T
    requires |pieces| == |entries| && AreSnapshotFrames(pieces, entries, seq(|entries|, _ => later))
    requires Sizes.Sane(contents)
    ensures Load(EncodeAll(Flatten(pieces)), map[], T) == Loaded(Live(contents, T), |Flatten(pieces)|, [])
      <==> AllDeadlinesComeBack(entries, seq(|entries|, _ => later), T) && AllCountsFit(entries, seq(|entries|, _ => later))
  {
    hide Load, AreSnapshotFrames, Holds, AllFit, AllDeadlinesComeBack, AllCountsFit, EncodeAll, Flatten, Sizes.Sane;
    SaneEntriesFit(contents, entries, now, later, T);
    SnapshotReloads(pieces, entries, seq(|entries|, _ => later), Live(contents, now), T);
    Laws.LiveLater(contents, now, T);
  }

  lemma SaneEntriesFit(contents: Keyspace, entries: seq<(Bytes, Entry)>, now: Millis, later: Millis, T: Millis)
    requires Sizes.Sane(contents) && Holds(entries, Live(contents, now)) && later <= T
    ensures AllFit(entries, seq(|entries|, _ => later), T)
  {
    hide Sizes.ValueFits;
    forall i | 0 <= i < |entries|
      ensures Sizes.ValueFits(entries[i].1.value)
    {
      assert contents[entries[i].0] == entries[i].1;
    }
  }

  /** Start-up: replay the file into an empty store, then start a writer on what was kept; only a cut is
      synced. Each of them measures the file; if both can, store and writer are those after a restart. */
  method StartUp(hash: Bytes -> nat, found: Disk, chunks: seq<Bytes>, cutMeasured: bool, sizeMeasured: bool, now: Millis)
    returns (db: Db, writer: Writer, applied: nat, kept: Bytes)
    requires NoneEmpty(chunks) && Flatten(chunks) == found.active.bytes
    ensures fresh(db) && fresh(writer) && db.Valid()
    ensures cutMeasured ==> Replays(found.active.bytes, kept, Live(db.Contents(), now), applied, now)
    ensures !cutMeasured ==> kept == found.active.bytes
    ensures var started := StartedWriter(found, kept);
      writer.State() == if sizeMeasured then started else started.(size := 0, ill := true)
  {
    db := new Db(hash);
    hide *;
    applied, kept := ReplayFile(db, chunks, cutMeasured, now);
    var disk := StartedOn(found, kept);
    writer := new Writer(disk, sizeMeasured);
    StartedIs(found, kept);
  }

  lemma StartedIs(found: Disk, kept: Bytes)
    ensures StartedWriter(found, kept) == WriterState(StartedOn(found, kept), |kept|, false, None, false)
    ensures StartedOn(found, kept).active.bytes == kept
  {
  }
}
