/** What the log writer does to the disk, message by message, with every failure the program sees and
    every state the disk passes through (`src/aof.rs`, the writer part; fsync policy `always`). */
module AofDisk {
  import opened Base

  const MAX_REWRITE_BUFFER_BYTES: nat := 64 * 1024 * 1024

  /** A file: its bytes, how many of them are known to be durable, and, after a truncation that is not
      durable yet, the bytes it had before. */
  datatype File = File(bytes: Bytes, synced: nat, lost: Option<Bytes>)

  function Synced(bytes: Bytes): File {
    File(bytes, |bytes|, None)
  }

  function Appended(f: File, s: Bytes): File {
    f.(bytes := f.bytes + s)
  }

  /** `set_len`: shorter drops bytes, longer pads with zeros. */
  function Resized(f: File, n: nat): File {
    if n <= |f.bytes| then File(f.bytes[..n], Min(f.synced, n), Some(f.bytes))
    else f.(bytes := f.bytes + seq(n - |f.bytes|, _ => 0 as char))
  }

  /** What a crash may leave of a file: the durable bytes and any prefix of the others. */
  predicate Survives(image: Bytes, f: File) {
    f.synced <= |image| && (image <= f.bytes || (f.lost.Some? && image <= f.lost.value))
  }

  /** The log under its name, the files it replaced whose rename is not durable yet, and the temporary
      file of a rewrite. */
  datatype Disk = Disk(active: File, previous: seq<File>, temp: Option<File>)

  /** A crash may undo the renames that are not durable. */
  predicate CrashImage(image: Bytes, d: Disk) {
    Survives(image, d.active) || exists i :: 0 <= i < |d.previous| && Survives(image, d.previous[i])
  }

  datatype RewriteBuf = RewriteBuf(frames: seq<Bytes>, bytes: nat)

  const EMPTY_BUFFER: RewriteBuf := RewriteBuf([], 0)

  /** `RewriteBuffer::push`; `None` when the limit is exceeded. */
  function Pushed(b: RewriteBuf, bytes: Bytes): Option<RewriteBuf> {
    if b.bytes + |bytes| > USIZE_MAX || b.bytes + |bytes| > MAX_REWRITE_BUFFER_BYTES then None
    else Some(RewriteBuf(b.frames + [bytes], b.bytes + |bytes|))
  }

  /** The writer task: `ill` records that the size counter may be wrong, because the sync after a rename
      failed or the file could not be measured. */
  datatype WriterState = WriterState(disk: Disk, size: nat, failed: bool, buffer: Option<RewriteBuf>, ill: bool)

  /** A handled message: the state after it, the answer, and the disk states on the way. */
  datatype Handled = Handled(after: WriterState, ok: bool, trace: seq<Disk>)

  // ---- Write ----

  /** How the file operations of one append turn out. */
  datatype WriteChoice = WriteChoice(written: nat, wroteOk: bool, syncOk: bool, resizeOk: bool, resyncOk: bool)

  predicate WriteSensible(x: WriteChoice, bytes: Bytes) {
    x.written <= |bytes| && (x.wroteOk ==> x.written == |bytes|)
  }

  function WriteResult(w: WriterState, bytes: Bytes, x: WriteChoice): Handled
    requires WriteSensible(x, bytes)
  {
    if w.failed then Handled(w, false, [])
    else
      var d1 := w.disk.(active := Appended(w.disk.active, bytes[..x.written]));
      if x.wroteOk && x.syncOk then
        var d2 := d1.(active := Synced(d1.active.bytes));
        var buffer := if w.buffer.Some? then Pushed(w.buffer.value, bytes) else None;
        Handled(w.(disk := d2, size := w.size + |bytes|, buffer := buffer), true, [d1] + [d2])
      else
        RolledBack(w.(disk := d1, size := if x.wroteOk then w.size + |bytes| else w.size), w.size, x, [d1])
  }

  /** The failed append is taken back to `len`, and the writer refuses everything from now on. */
  function RolledBack(w: WriterState, len: nat, x: WriteChoice, trace: seq<Disk>): Handled {
    if !x.resizeOk then Handled(w.(failed := true), false, trace)
    else
      var d1 := w.disk.(active := Resized(w.disk.active, len));
      var d2 := if x.resyncOk then d1.(active := Synced(d1.active.bytes)) else d1;
      Handled(w.(disk := d2, size := len, failed := true), false, if x.resyncOk then trace + [d1] + [d2] else trace + [d1])
  }

  // ---- FinishRewrite ----

  datatype FinishChoice = FinishChoice(openOk: bool, written: nat, wroteOk: bool, syncOk: bool, renameOk: bool,
                                       dirSyncOk: bool, finalSyncOk: bool, metadataOk: bool)

  predicate FinishSensible(x: FinishChoice, data: Bytes) {
    x.written <= |data| && (x.wroteOk ==> x.written == |data|)
  }

  function Buffered(w: WriterState): Bytes {
    if w.buffer.Some? then Flatten(w.buffer.value.frames) else []
  }

  function FinishResult(w: WriterState, x: FinishChoice): Handled
    requires FinishSensible(x, Buffered(w))
  {
    if w.buffer.None? then Handled(w, false, [])
    else
      var w1 := w.(buffer := None);
      if !x.openOk || w.disk.temp.None? then Handled(w1, false, [])
      else
        var d1 := w.disk.(temp := Some(Appended(w.disk.temp.value, Buffered(w)[..x.written])));
        if !x.wroteOk || !x.syncOk then Handled(w1.(disk := d1), false, [d1])
        else
          var d2 := d1.(temp := Some(Synced(d1.temp.value.bytes)));
          if !x.renameOk then Handled(w1.(disk := d2), false, [d1] + [d2])
          else Renamed(w1, d2.temp.value, x, [d1] + [d2])
  }

  /** From the rename on, the new file is the log, whatever fails after it. */
  function Renamed(w: WriterState, file: File, x: FinishChoice, trace: seq<Disk>): Handled {
    var d1 := Disk(file, w.disk.previous + [w.disk.active], None);
    var d2 := if x.dirSyncOk then d1.(previous := []) else d1;
    var renamed := if x.dirSyncOk then trace + [d1] + [d2] else trace + [d1];
    if !x.finalSyncOk then Handled(w.(disk := d2, ill := true), false, renamed)
    else
      var d3 := d2.(active := Synced(file.bytes));
      Handled(w.(disk := d3, size := if x.metadataOk then |file.bytes| else 0, ill := w.ill || !x.metadataOk),
              x.dirSyncOk, renamed + [d3])
  }

  /** The end of a rewrite gets as far as the rename. */
  predicate Replaces(w: WriterState, x: FinishChoice) {
    w.buffer.Some? && w.disk.temp.Some? && x.openOk && x.wroteOk && x.syncOk && x.renameOk
  }

  // ---- what the results mean ----

  /** At least the firm bytes of the file are durable, and it holds, or held before a truncation that is
      not durable, some of the given bytes and no others. */
  predicate Within(f: File, firm: Bytes, all: Bytes) {
    && |firm| <= f.synced <= |f.bytes|
    && firm <= f.bytes <= all
    && (f.lost.Some? ==> firm <= f.lost.value <= all)
  }

  lemma SyncedIsWithin(firm: Bytes, extra: Bytes)
    ensures Within(Synced(firm), firm, firm + extra)
  {
  }

  lemma PrefixWithin(good: Bytes, n: nat, firm: Bytes, extra: Bytes, k: nat)
    requires k <= |extra| && firm <= good && |firm| <= n <= |good|
    ensures Within(Appended(File(good, n, None), extra[..k]), firm, good + extra)
    ensures Within(Resized(Appended(File(good, n, None), extra[..k]), |good|), firm, good + extra)
    ensures Within(Synced(good), firm, good + extra)
    ensures Resized(Appended(File(good, n, None), extra[..k]), |good|).bytes == good
  {
    assert good + extra[..k] == (good + extra)[..|good| + k];
    assert (good + extra[..k])[..|good|] == good;
  }

  /** One append to the log: on success it is there and all is durable; on failure the writer is failed
      and the log still holds all the old bytes; in between, never anything but old bytes and a part of
      the new ones. */
  lemma WriteMeans(w: WriterState, bytes: Bytes, x: WriteChoice, firm: Bytes)
    requires WriteSensible(x, bytes) && !w.failed
    requires w.disk.active.lost.None? && w.size == |w.disk.active.bytes|
    requires firm <= w.disk.active.bytes && |firm| <= w.disk.active.synced <= |w.disk.active.bytes|
    ensures var h, good := WriteResult(w, bytes, x), w.disk.active.bytes;
      && (forall i :: 0 <= i < |h.trace| ==>
            && h.trace[i].previous == w.disk.previous && Within(h.trace[i].active, firm, good + bytes)
            && good <= h.trace[i].active.bytes)
      && (h.ok ==> h.after == w.(disk := w.disk.(active := Synced(good + bytes)), size := |good + bytes|,
                                 buffer := if w.buffer.Some? then Pushed(w.buffer.value, bytes) else None))
      && (!h.ok ==>
           && h.after == w.(disk := h.after.disk, size := h.after.size, failed := true)
           && h.after.disk == w.disk.(active := h.after.disk.active)
           && Within(h.after.disk.active, firm, good + bytes) && good <= h.after.disk.active.bytes
           && (x.resizeOk ==> h.after.disk.active.bytes == good))
  {
    var good := w.disk.active.bytes;
    assert w.disk.active == File(good, w.disk.active.synced, None);
    PrefixWithin(good, w.disk.active.synced, firm, bytes, x.written);
    assert bytes[..|bytes|] == bytes;
    assert Within(Synced(good + bytes), firm, good + bytes);
  }

  /** Finishing a rewrite: without the rename the log is the old one; with it, it is, complete and
      synced, the snapshot followed by the buffered frames, and the old file may come back until the
      directory is synced; the buffer is gone either way. */
  lemma FinishMeans(w: WriterState, x: FinishChoice, snapshot: Bytes)
    requires FinishSensible(x, Buffered(w)) && w.buffer.Some?
    requires w.disk.temp == Some(Synced(snapshot))
    ensures var h := FinishResult(w, x);
      var rebuilt := Synced(snapshot + Buffered(w));
      && (forall i :: 0 <= i < |h.trace| ==>
            || (h.trace[i].active == w.disk.active && h.trace[i].previous == w.disk.previous)
            || (h.trace[i].active == rebuilt
                  && (h.trace[i].previous == [] || h.trace[i].previous == w.disk.previous + [w.disk.active])))
      && h.after == w.(disk := h.after.disk, size := h.after.size, buffer := None, ill := h.after.ill)
      && (Replaces(w, x) && !h.after.ill ==>
            && h.after.disk.active == rebuilt && h.after.size == |rebuilt.bytes|
            && h.after.disk.previous == if x.dirSyncOk then [] else w.disk.previous + [w.disk.active])
      && (!Replaces(w, x) ==>
            && h.after.disk.active == w.disk.active && h.after.disk.previous == w.disk.previous
            && h.after.size == w.size && h.after.ill == w.ill && !h.ok)
  {
    var data := Buffered(w);
    assert data[..|data|] == data;
  }

  // ---- what the steps after the rename decide ----

  /** The rename takes place, of a synced temporary file. */
  predicate Renames(w: WriterState, x: FinishChoice) {
    Replaces(w, x) && w.disk.temp.value == Synced(w.disk.temp.value.bytes) && FinishSensible(x, Buffered(w))
  }

  /** What the log holds then: the snapshot followed by the buffered frames. */
  function RebuiltLog(w: WriterState): Bytes
    requires w.disk.temp.Some?
  {
    w.disk.temp.value.bytes + Buffered(w)
  }

  lemma AfterRename(w: WriterState, x: FinishChoice)
    requires Renames(w, x)
    ensures FinishResult(w, x).after
         == WriterState(Disk(Synced(RebuiltLog(w)), if x.dirSyncOk then [] else w.disk.previous + [w.disk.active], None),
                        if !x.finalSyncOk then w.size else if x.metadataOk then |RebuiltLog(w)| else 0,
                        w.failed, None, w.ill || !x.finalSyncOk || !x.metadataOk)
    ensures FinishResult(w, x).ok <==> x.finalSyncOk && x.dirSyncOk
  {
    var data := Buffered(w);
    assert data[..|data|] == data;
  }

  /** A failed append is taken back exactly if the size counter is right. */
  lemma RollbackNeedsTheSize(w: WriterState, bytes: Bytes, y: WriteChoice)
    requires !w.failed && WriteSensible(y, bytes) && !(y.wroteOk && y.syncOk) && y.resizeOk
    ensures var h := WriteResult(w, bytes, y);
      !h.ok && (h.after.disk.active.bytes == w.disk.active.bytes <==> w.size == |w.disk.active.bytes|)
  {
    var log, part := w.disk.active.bytes, bytes[..y.written];
    var resized := Resized(Appended(w.disk.active, part), w.size).bytes;
    assert |resized| == w.size;
    if w.size == |log| {
      assert (log + part)[..|log|] == log;
    }
  }

  /** An append that fails after a rewrite is taken back to exactly the rewritten log if and only if the
      size counter was renewed: the last sync and the metadata call succeeded, or the lengths agree by chance. */
  lemma RollbackAfterRename(w: WriterState, x: FinishChoice, bytes: Bytes, y: WriteChoice)
    requires Renames(w, x) && !w.failed && w.size == |w.disk.active.bytes|
    requires WriteSensible(y, bytes) && !(y.wroteOk && y.syncOk) && y.resizeOk
    ensures var h := WriteResult(FinishResult(w, x).after, bytes, y);
      && !h.ok
      && (h.after.disk.active.bytes == RebuiltLog(w) <==>
            if !x.finalSyncOk then |w.disk.active.bytes| == |RebuiltLog(w)| else x.metadataOk || RebuiltLog(w) == [])
  {
    hide FinishResult, Buffered, WriteResult;
    AfterRename(w, x);
    RollbackNeedsTheSize(FinishResult(w, x).after, bytes, y);
  }

  /** An append acknowledged after a rewrite survives every crash, with all of the rewritten log, if and
      only if the rename was made durable; otherwise a crash may also leave what it could leave of the old log. */
  lemma CrashAfterRename(w: WriterState, x: FinishChoice, bytes: Bytes, y: WriteChoice, image: Bytes)
    requires Renames(w, x) && !w.failed
    requires WriteSensible(y, bytes) && y.wroteOk && y.syncOk
    ensures var h := WriteResult(FinishResult(w, x).after, bytes, y);
      && h.ok
      && (CrashImage(image, h.after.disk) <==>
            image == RebuiltLog(w) + bytes || (!x.dirSyncOk && CrashImage(image, w.disk)))
  {
    hide FinishResult, Buffered;
    AfterRename(w, x);
    assert bytes[..|bytes|] == bytes;
    var whole := RebuiltLog(w) + bytes;
    assert Survives(image, Synced(whole)) <==> image == whole;
    var kept := w.disk.previous + [w.disk.active];
    assert (exists i :: 0 <= i < |kept| && Survives(image, kept[i])) <==> CrashImage(image, w.disk) by {
      KeptFiles(image, w.disk);
    }
  }

  lemma KeptFiles(image: Bytes, d: Disk)
    ensures var kept := d.previous + [d.active];
      (exists i :: 0 <= i < |kept| && Survives(image, kept[i])) <==> CrashImage(image, d)
  {
    hide Survives;
    var kept := d.previous + [d.active];
    if Survives(image, d.active) {
      assert kept[|d.previous|] == d.active;
    }
    if i :| 0 <= i < |d.previous| && Survives(image, d.previous[i]) {
      assert kept[i] == d.previous[i];
    }
  }

  /** When only the metadata call fails, the rewrite reports success and counts a size of zero, so the next
      failed append empties the log. */
  lemma MetadataFailureEmptiesTheLog(w: WriterState, x: FinishChoice, bytes: Bytes, y: WriteChoice)
    requires Renames(w, x) && !w.failed && x.dirSyncOk && x.finalSyncOk && !x.metadataOk
    requires WriteSensible(y, bytes) && !(y.wroteOk && y.syncOk) && y.resizeOk && y.resyncOk
    ensures FinishResult(w, x).ok
    ensures WriteResult(FinishResult(w, x).after, bytes, y).after.disk.active == Synced([])
  {
    hide FinishResult, Buffered;
    AfterRename(w, x);
  }

  /** A rewrite of a clean log with nothing buffered, up to and including the rename. */
  function PlainRewrite(oldLog: Bytes, snapshot: Bytes): (w: WriterState)
    ensures Buffered(w) == [] && w.disk.temp.Some? && RebuiltLog(w) == snapshot
  {
    WriterState(Disk(Synced(oldLog), [], Some(Synced(snapshot))), |oldLog|, false, Some(EMPTY_BUFFER), false)
  }

  /** Without a durable rename, a later acknowledged append is lost: a crash may bring the old file back. */
  lemma UnsyncedRenameLosesWrites(oldLog: Bytes, snapshot: Bytes, bytes: Bytes)
    ensures var finished := FinishResult(PlainRewrite(oldLog, snapshot), FinishChoice(true, 0, true, true, true, false, true, true)).after;
      var h := WriteResult(finished, bytes, WriteChoice(|bytes|, true, true, true, true));
      h.ok && CrashImage(oldLog, h.after.disk)
  {
    hide FinishResult, WriteResult, RebuiltLog, Buffered;
    CrashAfterRename(PlainRewrite(oldLog, snapshot), FinishChoice(true, 0, true, true, true, false, true, true),
                     bytes, WriteChoice(|bytes|, true, true, true, true), oldLog);
    assert Survives(oldLog, Synced(oldLog));
    assert CrashImage(oldLog, PlainRewrite(oldLog, snapshot).disk);
  }

  /** When the sync after the rename fails, the counter keeps the old length: a shorter one cuts
      acknowledged bytes off at the next failed append, a longer one leaves zeros. */
  lemma StaleSizeDamagesTheLog(oldLog: Bytes, snapshot: Bytes, bytes: Bytes)
    requires |oldLog| != |snapshot|
    ensures var finished := FinishResult(PlainRewrite(oldLog, snapshot), FinishChoice(true, 0, true, true, true, true, false, true)).after;
      var h := WriteResult(finished, bytes, WriteChoice(0, false, false, true, true));
      !h.ok && h.after.disk.active.bytes != snapshot
  {
    hide FinishResult, WriteResult, RebuiltLog, Buffered;
    RollbackAfterRename(PlainRewrite(oldLog, snapshot), FinishChoice(true, 0, true, true, true, true, false, true),
                        bytes, WriteChoice(0, false, false, true, true));
  }

  // ---- all messages ----

  datatype Message = Write(bytes: Bytes) | StartRewrite | FinishRewrite | AbortRewrite

  datatype Choice = Choice(write: WriteChoice, finish: FinishChoice)

  predicate Sensible(w: WriterState, m: Message, x: Choice) {
    && (m.Write? ==> WriteSensible(x.write, m.bytes))
    && (m.FinishRewrite? ==> FinishSensible(x.finish, Buffered(w)))
  }

  /** One turn of `run_writer`. */
  function HandleResult(w: WriterState, m: Message, x: Choice): Handled
    requires Sensible(w, m, x)
  {
    match m
    case Write(bytes) => WriteResult(w, bytes, x.write)
    case StartRewrite =>
      if w.buffer.Some? then Handled(w, false, []) else Handled(w.(buffer := Some(EMPTY_BUFFER)), true, [])
    case FinishRewrite => FinishResult(w, x.finish)
    case AbortRewrite => Handled(w.(buffer := None), true, [])
  }
}
