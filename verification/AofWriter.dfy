/** The log writer task as it runs (`RewriteBuffer` and `run_writer` in `src/aof.rs`). */
module AofWriter {
  import opened Base
  import opened AofDisk

  class RewriteBuffer {
    var frames: seq<Bytes>
    var bytes: nat

    constructor ()
      ensures Value() == EMPTY_BUFFER
    {
      frames, bytes := [], 0;
    }

    function Value(): RewriteBuf
      reads this
    {
      RewriteBuf(frames, bytes)
    }

    method Push(frame: Bytes) returns (ok: bool)
      modifies this
      ensures ok == Pushed(old(Value()), frame).Some?
      ensures Value() == if ok then Pushed(old(Value()), frame).value else old(Value())
    {
      var newSize := bytes + |frame|;
      if newSize > USIZE_MAX || newSize > MAX_REWRITE_BUFFER_BYTES {
        return false;
      }
      bytes := newSize;
      frames := frames + [frame];
      return true;
    }
  }

  class Writer {
    var disk: Disk
    var currentSize: nat
    var writeFailed: bool
    var rewriteBuffer: RewriteBuffer?
    /** Whether the size counter may be wrong: the sync after a rename failed or the file could not be
        measured. */
    ghost var ill: bool
    /** The disk states passed through while the last message was handled. */
    ghost var trace: seq<Disk>

    ghost function State(): WriterState
      reads this, rewriteBuffer
    {
      WriterState(disk, currentSize, writeFailed, if rewriteBuffer == null then None else Some(rewriteBuffer.Value()), ill)
    }

    /** `spawn_writer` on the log as it is found; a length that cannot be measured counts as zero. */
    constructor (found: Disk, measured: bool)
      ensures State() == WriterState(found, if measured then |found.active.bytes| else 0, false, None, !measured)
      ensures rewriteBuffer == null
    {
      disk, currentSize := found, if measured then |found.active.bytes| else 0;
      writeFailed, rewriteBuffer := false, null;
      ill, trace := !measured, [];
    }

    // ---- file operations, each of which may fail ----

    method WriteAll(bytes: Bytes) returns (ok: bool, ghost n: nat)
      modifies this`disk, this`trace
      ensures n <= |bytes| && (ok ==> n == |bytes|)
      ensures disk == old(disk).(active := Appended(old(disk.active), bytes[..n])) && trace == old(trace) + [disk]
    {
      var m: nat :| m <= |bytes|;
      n := m;
      disk := disk.(active := Appended(disk.active, bytes[..m]));
      trace := trace + [disk];
      ok := *;
      ok := ok && m == |bytes|;
    }

    method SyncData() returns (ok: bool)
      modifies this`disk, this`trace
      ensures ok ==> disk == old(disk).(active := Synced(old(disk.active.bytes))) && trace == old(trace) + [disk]
      ensures !ok ==> disk == old(disk) && trace == old(trace)
    {
      ok := *;
      if ok {
        disk := disk.(active := Synced(disk.active.bytes));
        trace := trace + [disk];
      }
    }

    method SetLen(n: nat) returns (ok: bool)
      modifies this`disk, this`trace
      ensures ok ==> disk == old(disk).(active := Resized(old(disk.active), n)) && trace == old(trace) + [disk]
      ensures !ok ==> disk == old(disk) && trace == old(trace)
    {
      ok := *;
      if ok {
        disk := disk.(active := Resized(disk.active, n));
        trace := trace + [disk];
      }
    }

    // ---- Write ----

    /** `rollback_active_file`: the result of the sync is ignored. */
    method RollbackActiveFile(previousLen: nat) returns (ghost resizeOk: bool, ghost resyncOk: bool)
      modifies this`disk, this`trace, this`currentSize
      ensures resizeOk ==>
        var d1 := old(disk).(active := Resized(old(disk.active), previousLen));
        var d2 := if resyncOk then d1.(active := Synced(d1.active.bytes)) else d1;
        disk == d2 && currentSize == previousLen && trace == old(trace) + (if resyncOk then [d1, d2] else [d1])
      ensures !resizeOk ==> disk == old(disk) && currentSize == old(currentSize) && trace == old(trace)
    {
      var ok := SetLen(previousLen);
      resizeOk, resyncOk := ok, false;
      if !ok {
        return;
      }
      var synced := SyncData();
      resyncOk := synced;
      currentSize := previousLen;
    }

    /** A Write message: append, sync, and take the append back if either fails. */
    method HandleWrite(bytes: Bytes) returns (ok: bool, ghost x: WriteChoice)
      modifies this, rewriteBuffer
      ensures WriteSensible(x, bytes)
      ensures var h := WriteResult(old(State()), bytes, x);
        State() == h.after && ok == h.ok && trace == h.trace
    {
      x := WriteChoice(0, false, false, false, false);
      trace := [];
      if writeFailed {
        return false, x;
      }
      var previousLen := currentSize;
      ghost var n;
      ok, n := WriteAll(bytes);
      x := x.(written := n, wroteOk := ok);
      if ok {
        currentSize := previousLen + |bytes|;
        ok := SyncData();
        x := x.(syncOk := ok);
      }
      if ok {
        if rewriteBuffer != null {
          var pushed := rewriteBuffer.Push(bytes);
          if !pushed {
            rewriteBuffer := null;
          }
        }
      } else {
        ghost var resizeOk, resyncOk;
        resizeOk, resyncOk := RollbackActiveFile(previousLen);
        x := x.(resizeOk := resizeOk, resyncOk := resyncOk);
        writeFailed := true;
      }
    }

    // ---- FinishRewrite ----

    /** The buffered frames go to the end of the temporary file. A crash in between leaves the log as it
        is, so only the last state is kept in the trace. */
    method AppendBuffer(buffer: RewriteBuffer) returns (ok: bool, ghost n: nat)
      requires disk.temp.Some?
      modifies this`disk, this`trace
      ensures n <= |Flatten(buffer.frames)| && (ok ==> n == |Flatten(buffer.frames)|)
      ensures disk == old(disk).(temp := Some(Appended(old(disk.temp.value), Flatten(buffer.frames)[..n])))
      ensures trace == [disk]
    {
      hide *;
      ok, n := true, 0;
      ghost var was, before, all := disk, disk.temp.value, Flatten(buffer.frames);
      var i := 0;
      NothingAppended(was, buffer.frames);
      while i < |buffer.frames| && ok
        invariant i <= |buffer.frames| && n <= |all|
        invariant ok ==> n == |Flatten(buffer.frames[..i])|
        invariant disk == was.(temp := Some(Appended(before, all[..n])))
      {
        var frame := buffer.frames[i];
        var m: nat :| m <= |frame|;
        NextPart(before, buffer.frames, i, m);
        disk := disk.(temp := Some(Appended(disk.temp.value, frame[..m])));
        n := n + m;
        ok := *;
        ok := ok && m == |frame|;
        i := i + 1;
      }
      assert buffer.frames[..|buffer.frames|] == buffer.frames;
      trace := [disk];
    }

    lemma NothingAppended(d: Disk, frames: seq<Bytes>)
      requires d.temp.Some?
      ensures |Flatten(frames[..0])| == 0 && d == d.(temp := Some(Appended(d.temp.value, Flatten(frames)[..0])))
    {
      assert d.temp.value.bytes + [] == d.temp.value.bytes;
    }

    /** A part of the next frame behind all frames before it. */
    lemma NextPart(before: File, frames: seq<Bytes>, i: nat, m: nat)
      requires i < |frames| && m <= |frames[i]|
      ensures var all, n := Flatten(frames), |Flatten(frames[..i])|;
        && n + m <= |all| && n <= |all|
        && Appended(Appended(before, all[..n]), frames[i][..m]) == Appended(before, all[..n + m])
        && |Flatten(frames[..i + 1])| == n + |frames[i]|
    {
      var all, start := Flatten(frames), Flatten(frames[..i]);
      FlattenSnoc(frames[..i], frames[i]);
      assert frames[..i + 1] == frames[..i] + [frames[i]];
      FlattenAppend(frames[..i + 1], frames[i + 1..]);
      assert frames == frames[..i + 1] + frames[i + 1..];
      assert all == start + frames[i] + Flatten(frames[i + 1..]);
      assert all[..|start| + m] == all[..|start|] + frames[i][..m];
      assert (before.bytes + all[..|start|]) + frames[i][..m] == before.bytes + all[..|start| + m];
    }

    /** From the rename on: the temporary file becomes the log, whatever fails after that. */
    method SwitchOver() returns (ok: bool, ghost dirSyncOk: bool, ghost finalSyncOk: bool, ghost metadataOk: bool)
      requires disk.temp.Some?
      modifies this`disk, this`trace, this`currentSize, this`ill
      ensures var d1 := Disk(old(disk.temp.value), old(disk.previous) + [old(disk.active)], None);
        var d2 := if dirSyncOk then d1.(previous := []) else d1;
        var d3 := d2.(active := Synced(d2.active.bytes));
        var renamed := if dirSyncOk then old(trace) + [d1] + [d2] else old(trace) + [d1];
        if finalSyncOk then
          && disk == d3 && trace == renamed + [d3] && ok == dirSyncOk
          && currentSize == (if metadataOk then |d3.active.bytes| else 0) && ill == (old(ill) || !metadataOk)
        else disk == d2 && trace == renamed && !ok && currentSize == old(currentSize) && ill
    {
      dirSyncOk, finalSyncOk, metadataOk := false, false, false;
      disk := Disk(disk.temp.value, disk.previous + [disk.active], None);
      trace := trace + [disk];
      var parentSynced := *;
      if parentSynced {
        disk := disk.(previous := []);
        trace := trace + [disk];
      }
      dirSyncOk := parentSynced;
      ok := *;
      if !ok {
        ill := true;
        return;
      }
      finalSyncOk := true;
      disk := disk.(active := Synced(disk.active.bytes));
      trace := trace + [disk];
      var measured := *;
      metadataOk := measured;
      currentSize := if measured then |disk.active.bytes| else 0;
      ill := ill || !measured;
      ok := parentSynced;
    }

    lemma RenamedIs(w: WriterState, file: File, x: FinishChoice, was: seq<Disk>)
      ensures var d1 := Disk(file, w.disk.previous + [w.disk.active], None);
        var d2 := if x.dirSyncOk then d1.(previous := []) else d1;
        var d3 := d2.(active := Synced(file.bytes));
        var renamed := if x.dirSyncOk then was + [d1] + [d2] else was + [d1];
        Renamed(w, file, x, was)
          == if !x.finalSyncOk then Handled(w.(disk := d2, ill := true), false, renamed)
             else Handled(w.(disk := d3, size := if x.metadataOk then |file.bytes| else 0, ill := w.ill || !x.metadataOk),
                          x.dirSyncOk, renamed + [d3])
    {
    }

    method HandleFinishRewrite() returns (ok: bool, ghost x: FinishChoice)
      modifies this
      ensures FinishSensible(x, Buffered(old(State())))
      ensures var h := FinishResult(old(State()), x);
        State() == h.after && ok == h.ok && trace == h.trace
    {
      hide Flatten, Resized, Survives, Pushed, WriteResult, RewriteBuffer.Value, Buffered, Renamed;
      ghost var w := State();
      BufferedIs(w);
      x := FinishChoice(false, 0, false, false, false, false, false, false);
      trace := [];
      if rewriteBuffer == null {
        return false, x;
      }
      var buffer := rewriteBuffer;
      BufferValue(buffer);
      rewriteBuffer := null;
      ok := *;
      if !ok || disk.temp.None? {
        return false, x;
      }
      x := x.(openOk := true);
      ghost var n;
      ok, n := AppendBuffer(buffer);
      x := x.(written := n, wroteOk := ok);
      if !ok {
        return;
      }
      ok := *;
      if !ok {
        return;
      }
      x := x.(syncOk := true);
      ghost var file := disk.temp.value;
      disk := disk.(temp := Some(Synced(disk.temp.value.bytes)));
      trace := trace + [disk];
      ok := *;
      if !ok {
        return;
      }
      x := x.(renameOk := true);
      ghost var was := trace;
      ghost var dirSyncOk, finalSyncOk, metadataOk;
      ok, dirSyncOk, finalSyncOk, metadataOk := SwitchOver();
      x := x.(dirSyncOk := dirSyncOk, finalSyncOk := finalSyncOk, metadataOk := metadataOk);
      RenamedIs(w.(buffer := None), Synced(file.bytes), x, was);
    }

    lemma BufferValue(buffer: RewriteBuffer)
      ensures buffer.Value() == RewriteBuf(buffer.frames, buffer.bytes)
    {
    }

    lemma BufferedIs(w: WriterState)
      ensures Buffered(w) == if w.buffer.Some? then Flatten(w.buffer.value.frames) else []
    {
    }

    // ---- the other messages ----

    method HandleStartRewrite() returns (ok: bool)
      modifies this
      ensures var h := HandleResult(old(State()), StartRewrite, NoChoice()); State() == h.after && ok == h.ok && trace == []
    {
      trace := [];
      if rewriteBuffer != null {
        return false;
      }
      rewriteBuffer := new RewriteBuffer();
      return true;
    }

    method HandleAbortRewrite()
      modifies this
      ensures State() == HandleResult(old(State()), AbortRewrite, NoChoice()).after && trace == []
    {
      trace := [];
      rewriteBuffer := null;
    }

    /** One turn of the loop of `run_writer`. */
    method Handle(m: Message) returns (ok: bool, ghost x: Choice)
      modifies this, rewriteBuffer
      ensures Sensible(old(State()), m, x)
      ensures var h := HandleResult(old(State()), m, x);
        State() == h.after && ok == h.ok && trace == h.trace
    {
      hide WriteResult, FinishResult;
      x := NoChoice();
      match m
      case Write(bytes) =>
        ghost var wx;
        ok, wx := HandleWrite(bytes);
        x := x.(write := wx);
      case StartRewrite =>
        ok := HandleStartRewrite();
      case FinishRewrite =>
        ghost var fx;
        ok, fx := HandleFinishRewrite();
        x := x.(finish := fx);
      case AbortRewrite =>
        HandleAbortRewrite();
        ok := true;
    }
  }

  function NoChoice(): Choice {
    Choice(WriteChoice(0, false, false, false, false), FinishChoice(false, 0, false, false, false, false, false, false))
  }
}
