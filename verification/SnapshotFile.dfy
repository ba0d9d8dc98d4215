/** Writing a snapshot to the temporary file (`write_snapshot_entries` and below, `src/aof.rs`). */
module SnapshotFile {
  import opened Base
  import opened Limits
  import opened Frames
  import opened Commands
  import opened Semantics
  import opened Ordering
  import opened Shards
  import opened Chunking

  // ---- the frames of an entry ----

  function SetFrame(key: Bytes, value: Bytes, expiresAt: Option<Millis>, clock: Millis): Frame {
    Request(["SET", key, value] + SetExpiry(expiresAt, clock))
  }

  function AppendFrame(key: Bytes, chunk: Bytes): Frame {
    Request(["APPEND", key, chunk])
  }

  function ExpiryFrame(key: Bytes, deadline: Millis, clock: Millis): Frame {
    if deadline <= MAX_EXPIRE_AT_MS then Request(["PEXPIREAT", key, Dec(deadline)])
    else Request(["PEXPIRE", key, Dec(RelativeMillis(deadline, clock))])
  }

  function ExpiryFrames(key: Bytes, expiresAt: Option<Millis>, clock: Millis): Option<seq<Frame>> {
    match expiresAt
    case None => Some([])
    case Some(deadline) =>
      var f := ExpiryFrame(key, deadline, clock);
      if Replayable(f) then Some([f]) else None
  }

  function Commanded(name: Bytes, key: Bytes, chunks: seq<seq<Unit>>): seq<Frame> {
    seq(|chunks|, i requires 0 <= i < |chunks| => CommandFrame(name, key, chunks[i]))
  }

  function CollectionFrames(name: Bytes, key: Bytes, units: seq<Unit>, expiresAt: Option<Millis>, clock: Millis)
    : Option<seq<Frame>>
  {
    var chunks :- Chunks(name, key, units, []);
    var expiry :- ExpiryFrames(key, expiresAt, clock);
    Some(Commanded(name, key, chunks) + expiry)
  }

  function AppendBase(key: Bytes): nat {
    HeaderLen(3) + BulkLen(6) + BulkLen(|key|)
  }

  function Appended(key: Bytes, slices: seq<Bytes>): seq<Frame> {
    seq(|slices|, i requires 0 <= i < |slices| => AppendFrame(key, slices[i]))
  }

  /** A string that does not fit one SET becomes an empty SET and APPENDs of the greatest length. */
  ghost function StringFrames(key: Bytes, value: Bytes, expiresAt: Option<Millis>, clock: Millis): Option<seq<Frame>> {
    if Replayable(SetFrame(key, value, expiresAt, clock)) then Some([SetFrame(key, value, expiresAt, clock)])
    else if !Replayable(SetFrame(key, [], None, clock)) then None
    else
      var n :- GreatestPayload(AppendBase(key), MAX_AOF_BUFFERED_FRAME_BYTES);
      if n == 0 && value != [] then None
      else
        var expiry :- ExpiryFrames(key, expiresAt, clock);
        Some([SetFrame(key, [], None, clock)] + Appended(key, AllSlices(value, n)) + expiry)
  }

  function AllSlices(value: Bytes, n: nat): seq<Bytes>
    requires n > 0 || value == []
  {
    if value == [] then [] else Slices(value, n)
  }

  /** The frames of an entry; the fields of a hash stand in the order of their names. */
  ghost function EntryFrames(key: Bytes, entry: Entry, clock: Millis): Option<seq<Frame>> {
    if Expired(entry, clock) then Some([])
    else
      match entry.value
      case Str(value) => StringFrames(key, value, entry.expiresAt, clock)
      case List(items) =>
        if items == [] then Some([]) else CollectionFrames("RPUSH", key, Singles(items), entry.expiresAt, clock)
      case Hash(fields) =>
        if fields == map[] then Some([])
        else CollectionFrames("HSET", key, PairUnits(Listed(fields)), entry.expiresAt, clock)
  }

  // ---- writing ----

  datatype Written = Written | TooLarge | IoFailed

  /** Success wrote exactly the frames; a refusal for size means there are none. */
  predicate Wrote(w: Written, frames: Option<seq<Frame>>, before: Bytes, after: Bytes) {
    && before <= after
    && (w.Written? ==> frames.Some? && after == before + EncodeAll(frames.value))
    && (w.TooLarge? ==> frames.None?)
  }

  class TempFile {
    var bytes: Bytes

    constructor ()
      ensures bytes == []
    {
      bytes := [];
    }

    /** A write that may fail anywhere. */
    method WriteAll(s: Bytes) returns (ok: bool)
      modifies this
      ensures old(bytes) <= bytes <= old(bytes) + s
      ensures ok ==> bytes == old(bytes) + s
    {
      var n: nat :| n <= |s|;
      bytes := bytes + s[..n];
      assert bytes == (old(bytes) + s)[..|old(bytes)| + n];
      ok := n == |s|;
    }

    method WriteReplayableFrame(frame: Frame) returns (w: Written)
      modifies this
      ensures Wrote(w, if Replayable(frame) then Some([frame]) else None, old(bytes), bytes)
      ensures w.TooLarge? <==> !Replayable(frame)
    {
      hide Encode, EncodedLen;
      MeasuredIsReplayable(frame);
      var len := EncodedLen(frame);
      if len.None? || len.value > MAX_AOF_BUFFERED_FRAME_BYTES {
        return TooLarge;
      }
      EncodeAllSnoc([], frame);
      assert [] + [frame] == [frame];
      var ok := WriteAll(Encode(frame));
      return if ok then Written else IoFailed;
    }

    method WriteExpiry(key: Bytes, expiresAt: Option<Millis>, clock: Millis) returns (w: Written)
      modifies this
      ensures Wrote(w, ExpiryFrames(key, expiresAt, clock), old(bytes), bytes)
    {
      hide Encode, ExpiryFrame, Replayable;
      if expiresAt.None? {
        return Written;
      }
      w := WriteReplayableFrame(ExpiryFrame(key, expiresAt.value, clock));
    }

    method WriteString(key: Bytes, value: Bytes, expiresAt: Option<Millis>, clock: Millis) returns (w: Written)
      modifies this
      ensures Wrote(w, StringFrames(key, value, expiresAt, clock), old(bytes), bytes)
    {
      hide *;
      ghost var before := bytes;
      var fullSet := SetFrame(key, value, expiresAt, clock);
      MeasuredIsReplayable(fullSet);
      StringCases(key, value, expiresAt, clock, before);
      if FrameIsReplayable(fullSet) {
        w := WriteReplayableFrame(fullSet);
        return;
      }
      w := WriteReplayableFrame(SetFrame(key, [], None, clock));
      WroteMeans(w, if Replayable(SetFrame(key, [], None, clock)) then Some([SetFrame(key, [], None, clock)]) else None, before, bytes);
      if !w.Written? {
        StringStops(w, key, value, expiresAt, clock, before, before, bytes);
        return;
      }
      var chunkLen := MaxAppendChunkLen(key);
      if chunkLen.None? || (chunkLen.value == 0 && value != []) {
        StringStops(TooLarge, key, value, expiresAt, clock, before, before, bytes);
        return TooLarge;
      }
      ghost var withSet := bytes;
      w := WriteSlices(key, value, chunkLen.value);
      WroteMeans(w, Some(Appended(key, AllSlices(value, chunkLen.value))), withSet, bytes);
      if !w.Written? {
        StringStops(w, key, value, expiresAt, clock, before, withSet, bytes);
        return;
      }
      ghost var withSlices := bytes;
      w := WriteExpiry(key, expiresAt, clock);
      StringEnds(w, key, value, expiresAt, clock, chunkLen.value, before, withSet, withSlices, bytes);
    }

    /** The APPEND loop. Every slice fits, so none is refused. */
    method WriteSlices(key: Bytes, value: Bytes, n: nat) returns (w: Written)
      requires n > 0 || value == []
      requires AppendBase(key) + BulkLen(n) <= MAX_AOF_BUFFERED_FRAME_BYTES
      modifies this
      ensures Wrote(w, Some(Appended(key, AllSlices(value, n))), old(bytes), bytes)
    {
      hide *;
      var offset := 0;
      ghost var done: seq<Bytes>, before := [], bytes;
      SlicingStarts(key, value, n, before);
      while offset < |value|
        invariant offset <= |value|
        invariant Slicing(key, value, n, offset, done, before, bytes)
      {
        var end := Min(offset + n, |value|);
        SliceStep(key, value, n, offset, done, before, bytes);
        var chunk := value[offset..end];
        ghost var was := bytes;
        w := WriteReplayableFrame(AppendFrame(key, chunk));
        Flushed(w, AppendFrame(key, chunk), before, was, bytes, Some(Appended(key, AllSlices(value, n))));
        if !w.Written? {
          return;
        }
        done := done + [chunk];
        offset := end;
      }
      SlicingEnds(key, value, n, done, before, bytes);
      w := Written;
    }

    method MaxAppendChunkLen(key: Bytes) returns (r: Option<nat>)
      ensures r == GreatestPayload(AppendBase(key), MAX_AOF_BUFFERED_FRAME_BYTES)
      ensures r.Some? ==> AppendBase(key) + BulkLen(r.value) <= MAX_AOF_BUFFERED_FRAME_BYTES
    {
      hide GreatestPayload, BulkLen, HeaderLen;
      BaseLenIs("APPEND", key, 3);
      var baseLen := CommandKeyBaseLen("APPEND", key, 3);
      if baseLen.None? {
        NoPayload(AppendBase(key), MAX_AOF_BUFFERED_FRAME_BYTES);
        return None;
      }
      r := MaxPayloadLenForFrame(baseLen.value);
      if r.Some? {
        PayloadBelow(baseLen.value, r.value);
        GreatestPayloadIs(AppendBase(key), MAX_AOF_BUFFERED_FRAME_BYTES, r.value);
      } else {
        NoPayload(AppendBase(key), MAX_AOF_BUFFERED_FRAME_BYTES);
      }
    }

    method WriteRPush(key: Bytes, values: seq<Bytes>) returns (w: Written)
      requires ChunkFits("RPUSH", key, Singles(values))
      modifies this
      ensures Wrote(w, Some([CommandFrame("RPUSH", key, Singles(values))]), old(bytes), bytes)
    {
      hide Encode;
      SinglesFlatten(values);
      w := WriteReplayableFrame(Request(["RPUSH", key] + values));
    }

    method WriteHSet(key: Bytes, pairs: seq<(Bytes, Bytes)>) returns (w: Written)
      requires ChunkFits("HSET", key, PairUnits(pairs))
      modifies this
      ensures Wrote(w, Some([CommandFrame("HSET", key, PairUnits(pairs))]), old(bytes), bytes)
    {
      hide Encode;
      PairUnitsFlatten(pairs);
      w := WriteReplayableFrame(Request(["HSET", key] + Unpair(pairs)));
    }

    method WriteList(key: Bytes, values: seq<Bytes>, expiresAt: Option<Millis>, clock: Millis) returns (w: Written)
      modifies this
      ensures Wrote(w, CollectionFrames("RPUSH", key, Singles(values), expiresAt, clock), old(bytes), bytes)
    {
      hide *;
      ghost var units, done, before := Singles(values), [], bytes;
      var current: seq<Bytes>, payloadLen: nat := [], 0;
      ListCutStarts("RPUSH", key, values, before);
      for i := 0 to |values|
        invariant payloadLen == BulksLen(current) && before <= bytes
        invariant Cutting("RPUSH", key, units, i, done, Singles(current), before, bytes)
      {
        var value := values[i];
        ListUnit("RPUSH", key, values, i, current);
        Measured("RPUSH", key, Singles(current), units[i]);
        CutStep("RPUSH", key, units, i, done, Singles(current), before, bytes);
        NoFrames("RPUSH", key, units, expiresAt, clock);
        var valueLen := RespBulkLen(|value|);
        if valueLen.None? {
          Refused(before, bytes);
          return TooLarge;
        }
        var nextLen := ChunkedCommandLen("RPUSH", key, |current| + 1, payloadLen + valueLen.value);
        if nextLen.None? {
          Refused(before, bytes);
          return TooLarge;
        }
        if nextLen.value <= MAX_AOF_BUFFERED_FRAME_BYTES {
          current := current + [value];
          payloadLen := payloadLen + valueLen.value;
          continue;
        }
        if current == [] {
          Refused(before, bytes);
          return TooLarge;
        }
        ghost var was := bytes;
        w := WriteRPush(key, current);
        Flushed(w, CommandFrame("RPUSH", key, Singles(current)), before, was, bytes, CollectionFrames("RPUSH", key, units, expiresAt, clock));
        if !w.Written? {
          return;
        }
        var singleLen := ChunkedCommandLen("RPUSH", key, 1, valueLen.value);
        if singleLen.None? || singleLen.value > MAX_AOF_BUFFERED_FRAME_BYTES {
          Refused(before, bytes);
          return TooLarge;
        }
        CutFlush("RPUSH", key, units, i, done, Singles(current), before, was);
        done := done + [Singles(current)];
        current := [value];
        payloadLen := valueLen.value;
      }
      CutEnds("RPUSH", key, units, done, Singles(current), before, bytes);
      if current != [] {
        ghost var was := bytes;
        w := WriteRPush(key, current);
        Flushed(w, CommandFrame("RPUSH", key, Singles(current)), before, was, bytes, CollectionFrames("RPUSH", key, units, expiresAt, clock));
        if !w.Written? {
          return;
        }
        done := done + [Singles(current)];
      }
      ghost var was := bytes;
      w := WriteExpiry(key, expiresAt, clock);
      CutWithExpiry(w, "RPUSH", key, units, done, expiresAt, clock, before, was, bytes);
    }

    method WriteHash(key: Bytes, values: map<Bytes, Bytes>, expiresAt: Option<Millis>, clock: Millis) returns (w: Written)
      modifies this
      ensures Wrote(w, CollectionFrames("HSET", key, PairUnits(Listed(values)), expiresAt, clock), old(bytes), bytes)
    {
      hide *;
      var order := HashOrder(values);
      EnumeratesInside(order, values);
      var fields := Sorted(PairsOf(values, order));
      EnumerationLists(order, values);
      SortedIsListed(PairsOf(values, order), values);
      ghost var units, done, before := PairUnits(fields), [], bytes;
      var current: seq<(Bytes, Bytes)>, payloadLen: nat := [], 0;
      HashCutStarts("HSET", key, fields, before);
      for i := 0 to |fields|
        invariant payloadLen == BulksLen(Unpair(current)) && before <= bytes
        invariant Cutting("HSET", key, units, i, done, PairUnits(current), before, bytes)
      {
        var (field, value) := fields[i];
        HashUnit("HSET", key, fields, i, current);
        Measured("HSET", key, PairUnits(current), units[i]);
        CutStep("HSET", key, units, i, done, PairUnits(current), before, bytes);
        NoFrames("HSET", key, units, expiresAt, clock);
        var fieldLen, valueLen := RespBulkLen(|field|), RespBulkLen(|value|);
        if fieldLen.None? || valueLen.None? {
          Refused(before, bytes);
          return TooLarge;
        }
        var pairLen := CheckedAdd(fieldLen.value, valueLen.value);
        if pairLen.None? {
          Refused(before, bytes);
          return TooLarge;
        }
        var nextPayloadLen := CheckedAdd(payloadLen, pairLen.value);
        if nextPayloadLen.None? {
          Refused(before, bytes);
          return TooLarge;
        }
        var nextLen := ChunkedCommandLen("HSET", key, (|current| + 1) * 2, nextPayloadLen.value);
        if nextLen.None? {
          Refused(before, bytes);
          return TooLarge;
        }
        if nextLen.value <= MAX_AOF_BUFFERED_FRAME_BYTES {
          current := current + [(field, value)];
          payloadLen := nextPayloadLen.value;
          continue;
        }
        if current == [] {
          Refused(before, bytes);
          return TooLarge;
        }
        ghost var was := bytes;
        w := WriteHSet(key, current);
        Flushed(w, CommandFrame("HSET", key, PairUnits(current)), before, was, bytes, CollectionFrames("HSET", key, units, expiresAt, clock));
        if !w.Written? {
          return;
        }
        var singleLen := ChunkedCommandLen("HSET", key, 2, pairLen.value);
        if singleLen.None? || singleLen.value > MAX_AOF_BUFFERED_FRAME_BYTES {
          Refused(before, bytes);
          return TooLarge;
        }
        CutFlush("HSET", key, units, i, done, PairUnits(current), before, was);
        done := done + [PairUnits(current)];
        current := [(field, value)];
        payloadLen := pairLen.value;
      }
      CutEnds("HSET", key, units, done, PairUnits(current), before, bytes);
      if current != [] {
        ghost var was := bytes;
        w := WriteHSet(key, current);
        Flushed(w, CommandFrame("HSET", key, PairUnits(current)), before, was, bytes, CollectionFrames("HSET", key, units, expiresAt, clock));
        if !w.Written? {
          return;
        }
        done := done + [PairUnits(current)];
      }
      ghost var was := bytes;
      w := WriteExpiry(key, expiresAt, clock);
      CutWithExpiry(w, "HSET", key, units, done, expiresAt, clock, before, was, bytes);
    }
  }

  lemma EnumeratesInside(order: seq<Bytes>, fields: map<Bytes, Bytes>)
    requires Enumerates(order, fields)
    ensures forall i :: 0 <= i < |order| ==> order[i] in fields
  {
  }

  /** `write_snapshot_entry`. */
  method WriteEntry(file: TempFile, key: Bytes, entry: Entry, clock: Millis) returns (w: Written)
    modifies file
    ensures Wrote(w, EntryFrames(key, entry, clock), old(file.bytes), file.bytes)
  {
    hide Encode, CollectionFrames, StringFrames, Listed;
    if Expired(entry, clock) {
      return Written;
    }
    match entry.value
    case Str(value) =>
      w := file.WriteString(key, value, entry.expiresAt, clock);
    case List(values) =>
      if values == [] {
        return Written;
      }
      w := file.WriteList(key, values, entry.expiresAt, clock);
    case Hash(fields) =>
      if fields == map[] {
        return Written;
      }
      w := file.WriteHash(key, fields, entry.expiresAt, clock);
  }

  /** What a snapshot of these entries writes, entry by entry, the clock being read once for each. */
  ghost predicate AreSnapshotFrames(pieces: seq<seq<Frame>>, entries: seq<(Bytes, Entry)>, clocks: seq<Millis>) {
    && |pieces| <= |entries| <= |clocks|
    && forall i :: 0 <= i < |pieces| ==> EntryFrames(entries[i].0, entries[i].1, clocks[i]) == Some(pieces[i])
  }

  /** `write_snapshot_entries` on a fresh temporary file; any write, and the sync at the end, may fail. */
  method WriteSnapshotEntries(entries: seq<(Bytes, Entry)>, clocks: seq<Millis>)
    returns (w: Written, file: TempFile, ghost pieces: seq<seq<Frame>>)
    requires |entries| <= |clocks|
    ensures fresh(file)
    ensures w.Written? ==> |pieces| == |entries| && AreSnapshotFrames(pieces, entries, clocks)
    ensures w.Written? ==> file.bytes == EncodeAll(Flatten(pieces))
    ensures w.TooLarge? ==> exists i :: 0 <= i < |entries| && EntryFrames(entries[i].0, entries[i].1, clocks[i]) == None
  {
    hide Encode, EntryFrames;
    file := new TempFile();
    pieces := [];
    for i := 0 to |entries|
      invariant |pieces| == i && AreSnapshotFrames(pieces, entries, clocks)
      invariant file.bytes == EncodeAll(Flatten(pieces))
    {
      ghost var frames := EntryFrames(entries[i].0, entries[i].1, clocks[i]);
      w := WriteEntry(file, entries[i].0, entries[i].1, clocks[i]);
      if !w.Written? {
        return;
      }
      FlattenSnoc(pieces, frames.value);
      EncodeAllAppend(Flatten(pieces), frames.value);
      pieces := pieces + [frames.value];
    }
    var synced := *;
    w := if synced then Written else IoFailed;
  }

  // ---- strings ----

  lemma WroteMeans(w: Written, frames: Option<seq<Frame>>, before: Bytes, after: Bytes)
    requires Wrote(w, frames, before, after)
    ensures before <= after
    ensures w.Written? ==> frames.Some? && after == before + EncodeAll(frames.value)
    ensures w.TooLarge? ==> frames.None?
  {
  }

  lemma StringCases(key: Bytes, value: Bytes, expiresAt: Option<Millis>, clock: Millis, before: Bytes)
    ensures Replayable(SetFrame(key, value, expiresAt, clock)) ==>
      StringFrames(key, value, expiresAt, clock) == Some([SetFrame(key, value, expiresAt, clock)])
  {
    hide Replayable, SetFrame, ExpiryFrames, GreatestPayload, AppendBase;
  }

  /** Stopping early: for a refusal there are no frames. */
  lemma StringStops(w: Written, key: Bytes, value: Bytes, expiresAt: Option<Millis>, clock: Millis,
                    before: Bytes, was: Bytes, bytes: Bytes)
    requires before <= was <= bytes && !w.Written?
    requires !Replayable(SetFrame(key, value, expiresAt, clock))
    requires w.TooLarge? ==>
      || !Replayable(SetFrame(key, [], None, clock))
      || var n := GreatestPayload(AppendBase(key), MAX_AOF_BUFFERED_FRAME_BYTES); n.None? || (n.value == 0 && value != [])
    ensures Wrote(w, StringFrames(key, value, expiresAt, clock), before, bytes)
  {
    hide Replayable, SetFrame, ExpiryFrames, GreatestPayload, AppendBase;
  }

  lemma StringEnds(w: Written, key: Bytes, value: Bytes, expiresAt: Option<Millis>, clock: Millis, n: nat,
                   before: Bytes, withSet: Bytes, withSlices: Bytes, bytes: Bytes)
    requires !Replayable(SetFrame(key, value, expiresAt, clock)) && Replayable(SetFrame(key, [], None, clock))
    requires GreatestPayload(AppendBase(key), MAX_AOF_BUFFERED_FRAME_BYTES) == Some(n) && (n > 0 || value == [])
    requires withSet == before + EncodeAll([SetFrame(key, [], None, clock)])
    requires withSlices == withSet + EncodeAll(Appended(key, AllSlices(value, n)))
    requires Wrote(w, ExpiryFrames(key, expiresAt, clock), withSlices, bytes)
    ensures Wrote(w, StringFrames(key, value, expiresAt, clock), before, bytes)
  {
    hide Replayable, SetFrame, ExpiryFrames, GreatestPayload, AppendBase, EncodeAll, AllSlices, Appended;
    var first, slices := [SetFrame(key, [], None, clock)], Appended(key, AllSlices(value, n));
    if w.Written? {
      EncodeAllAppend(first, slices);
      EncodeAllAppend(first + slices, ExpiryFrames(key, expiresAt, clock).value);
    }
  }

  ghost predicate Slicing(key: Bytes, value: Bytes, n: nat, offset: nat, done: seq<Bytes>, before: Bytes, bytes: Bytes) {
    && offset <= |value| && (n > 0 || value == [])
    && AppendBase(key) + BulkLen(n) <= MAX_AOF_BUFFERED_FRAME_BYTES
    && bytes == before + EncodeAll(Appended(key, done))
    && AllSlices(value, n) == done + AllSlices(value[offset..], n)
  }

  lemma SlicingStarts(key: Bytes, value: Bytes, n: nat, before: Bytes)
    requires n > 0 || value == []
    requires AppendBase(key) + BulkLen(n) <= MAX_AOF_BUFFERED_FRAME_BYTES
    ensures Slicing(key, value, n, 0, [], before, before)
  {
    hide AppendBase, BulkLen, AllSlices;
    assert value[0..] == value && Appended(key, []) == [];
    assert [] + AllSlices(value, n) == AllSlices(value, n);
  }

  lemma SliceStep(key: Bytes, value: Bytes, n: nat, offset: nat, done: seq<Bytes>, before: Bytes, bytes: Bytes)
    requires Slicing(key, value, n, offset, done, before, bytes) && offset < |value|
    ensures before <= bytes
    ensures var end := Min(offset + n, |value|);
      && offset < end <= |value|
      && Replayable(AppendFrame(key, value[offset..end]))
      && Slicing(key, value, n, end, done + [value[offset..end]], before,
                 bytes + EncodeAll([AppendFrame(key, value[offset..end])]))
  {
    hide AppendBase, BulkLen, EncodeAll, Replayable, AllSlices, Appended;
    var end := Min(offset + n, |value|);
    var chunk := value[offset..end];
    SlicesUnfold(value, n, offset);
    assert done + ([chunk] + AllSlices(value[end..], n)) == (done + [chunk]) + AllSlices(value[end..], n);
    AppendFits(key, chunk, n);
    AppendedSnoc(key, done, chunk);
  }

  lemma SlicesUnfold(value: Bytes, n: nat, offset: nat)
    requires n > 0 && offset < |value|
    ensures var end := Min(offset + n, |value|);
      AllSlices(value[offset..], n) == [value[offset..end]] + AllSlices(value[end..], n)
  {
    var end := Min(offset + n, |value|);
    var rest := value[offset..];
    assert rest[..Min(n, |rest|)] == value[offset..end] && rest[Min(n, |rest|)..] == value[end..];
    assert Slices(rest, n) == [value[offset..end]] + Slices(value[end..], n);
    assert Slices(value[end..], n) == AllSlices(value[end..], n);
  }

  lemma AppendedSnoc(key: Bytes, done: seq<Bytes>, chunk: Bytes)
    ensures EncodeAll(Appended(key, done + [chunk])) == EncodeAll(Appended(key, done)) + EncodeAll([AppendFrame(key, chunk)])
  {
    hide EncodeAll, AppendFrame;
    assert Appended(key, done + [chunk]) == Appended(key, done) + [AppendFrame(key, chunk)];
    EncodeAllAppend(Appended(key, done), [AppendFrame(key, chunk)]);
  }

  lemma SlicingEnds(key: Bytes, value: Bytes, n: nat, done: seq<Bytes>, before: Bytes, bytes: Bytes)
    requires Slicing(key, value, n, |value|, done, before, bytes)
    ensures Wrote(Written.Written, Some(Appended(key, AllSlices(value, n))), before, bytes)
  {
    hide AppendBase, BulkLen, EncodeAll;
    assert value[|value|..] == [] && done + [] == done;
  }

  // ---- the state of the chunk loops ----

  function Onto(done: seq<seq<Unit>>, more: Option<seq<seq<Unit>>>): Option<seq<seq<Unit>>> {
    if more.Some? then Some(done + more.value) else None
  }

  /** The first `i` units are cut: into the chunks on file and the open chunk, which still fits. */
  ghost predicate Cutting(name: Bytes, key: Bytes, units: seq<Unit>, i: nat, done: seq<seq<Unit>>, current: seq<Unit>,
                          before: Bytes, bytes: Bytes) {
    && i <= |units|
    && (current == [] || ChunkFits(name, key, current))
    && bytes == before + EncodeAll(Commanded(name, key, done))
    && Chunks(name, key, units, []) == Onto(done, Chunks(name, key, units[i..], current))
  }

  lemma CutStarts(name: Bytes, key: Bytes, units: seq<Unit>, before: Bytes)
    ensures Cutting(name, key, units, 0, [], [], before, before)
  {
    hide Chunks, ChunkFits;
    assert units[0..] == units && Commanded(name, key, []) == [];
    var all := Chunks(name, key, units, []);
    assert all.Some? ==> [] + all.value == all.value;
  }

  lemma ListCutStarts(name: Bytes, key: Bytes, values: seq<Bytes>, before: Bytes)
    ensures Cutting(name, key, Singles(values), 0, [], Singles([]), before, before)
    ensures BulksLen([]) == 0
  {
    hide Cutting;
    CutStarts(name, key, Singles(values), before);
    assert Singles([]) == [];
  }

  lemma HashCutStarts(name: Bytes, key: Bytes, fields: seq<(Bytes, Bytes)>, before: Bytes)
    ensures Cutting(name, key, PairUnits(fields), 0, [], PairUnits([]), before, before)
    ensures BulksLen(Unpair([])) == 0
  {
    hide Cutting;
    CutStarts(name, key, PairUnits(fields), before);
    assert PairUnits([]) == [];
  }

  /** What the next unit does to the open chunk. */
  lemma CutStep(name: Bytes, key: Bytes, units: seq<Unit>, i: nat, done: seq<seq<Unit>>, current: seq<Unit>,
                before: Bytes, bytes: Bytes)
    requires Cutting(name, key, units, i, done, current, before, bytes) && i < |units|
    ensures current == [] || ChunkFits(name, key, current)
    ensures ChunkFits(name, key, current + [units[i]]) ==>
      Cutting(name, key, units, i + 1, done, current + [units[i]], before, bytes)
    ensures !ChunkFits(name, key, current + [units[i]]) && (current == [] || !ChunkFits(name, key, [units[i]])) ==>
      Chunks(name, key, units, []) == None
  {
    hide ChunkFits, EncodeAll, Commanded;
    assert units[i..][0] == units[i] && units[i..][1..] == units[i + 1..];
  }

  lemma CutFlush(name: Bytes, key: Bytes, units: seq<Unit>, i: nat, done: seq<seq<Unit>>, current: seq<Unit>,
                 before: Bytes, bytes: Bytes)
    requires Cutting(name, key, units, i, done, current, before, bytes) && i < |units| && current != []
    requires !ChunkFits(name, key, current + [units[i]]) && ChunkFits(name, key, [units[i]])
    ensures Cutting(name, key, units, i + 1, done + [current], [units[i]], before,
                    bytes + EncodeAll([CommandFrame(name, key, current)]))
  {
    hide ChunkFits, EncodeAll, Commanded;
    assert units[i..][0] == units[i] && units[i..][1..] == units[i + 1..];
    CommandedSnoc(name, key, done, current);
    var rest := Chunks(name, key, units[i + 1..], [units[i]]);
    if rest.Some? {
      assert done + ([current] + rest.value) == (done + [current]) + rest.value;
    }
  }

  lemma CutEnds(name: Bytes, key: Bytes, units: seq<Unit>, done: seq<seq<Unit>>, current: seq<Unit>,
                before: Bytes, bytes: Bytes)
    requires Cutting(name, key, units, |units|, done, current, before, bytes)
    ensures current == [] || ChunkFits(name, key, current)
    ensures Chunks(name, key, units, []) == Some(if current == [] then done else done + [current])
    ensures bytes == before + EncodeAll(Commanded(name, key, done))
    ensures bytes + EncodeAll([CommandFrame(name, key, current)]) == before + EncodeAll(Commanded(name, key, done + [current]))
  {
    hide ChunkFits, EncodeAll, Commanded;
    assert units[|units|..] == [];
    assert done + [] == done;
    CommandedSnoc(name, key, done, current);
  }

  lemma CutWithExpiry(w: Written, name: Bytes, key: Bytes, units: seq<Unit>, done: seq<seq<Unit>>,
                      expiresAt: Option<Millis>, clock: Millis, before: Bytes, was: Bytes, bytes: Bytes)
    requires Chunks(name, key, units, []) == Some(done)
    requires was == before + EncodeAll(Commanded(name, key, done))
    requires Wrote(w, ExpiryFrames(key, expiresAt, clock), was, bytes)
    ensures Wrote(w, CollectionFrames(name, key, units, expiresAt, clock), before, bytes)
  {
    hide EncodeAll, Commanded, ExpiryFrames, Chunks;
    if w.Written? {
      EncodeAllAppend(Commanded(name, key, done), ExpiryFrames(key, expiresAt, clock).value);
    }
  }

  lemma Refused(before: Bytes, bytes: Bytes)
    requires before <= bytes
    ensures Wrote(TooLarge, None, before, bytes)
  {
  }

  lemma NoFrames(name: Bytes, key: Bytes, units: seq<Unit>, expiresAt: Option<Millis>, clock: Millis)
    ensures Chunks(name, key, units, []).None? ==> CollectionFrames(name, key, units, expiresAt, clock) == None
  {
    hide Chunks, ExpiryFrames;
  }

  lemma Flushed(w: Written, f: Frame, before: Bytes, was: Bytes, bytes: Bytes, frames: Option<seq<Frame>>)
    requires before <= was && Wrote(w, Some([f]), was, bytes)
    ensures before <= bytes && (w.Written? ==> bytes == was + EncodeAll([f]))
    ensures !w.Written? ==> Wrote(w, frames, before, bytes)
  {
    hide EncodeAll;
  }

  lemma CommandedSnoc(name: Bytes, key: Bytes, done: seq<seq<Unit>>, chunk: seq<Unit>)
    ensures EncodeAll(Commanded(name, key, done + [chunk]))
         == EncodeAll(Commanded(name, key, done)) + EncodeAll([CommandFrame(name, key, chunk)])
  {
    hide EncodeAll, CommandFrame;
    assert Commanded(name, key, done + [chunk]) == Commanded(name, key, done) + [CommandFrame(name, key, chunk)];
    EncodeAllAppend(Commanded(name, key, done), [CommandFrame(name, key, chunk)]);
  }

  // ---- the lengths the loops compute ----

  /** The computed length decides exactly whether the open chunk takes the unit, and overflows only
      when the unit does not fit on its own. */
  lemma Measured(name: Bytes, key: Bytes, current: seq<Unit>, unit: Unit)
    ensures var parts := Flatten(current);
      var next := ChunkedCommandLen(name, key, |parts| + |unit|, BulksLen(parts) + BulksLen(unit));
      var single := ChunkedCommandLen(name, key, |unit|, BulksLen(unit));
      && (ChunkFits(name, key, current + [unit]) <==> next.Some? && next.value <= MAX_AOF_BUFFERED_FRAME_BYTES)
      && (ChunkFits(name, key, [unit]) <==> single.Some? && single.value <= MAX_AOF_BUFFERED_FRAME_BYTES)
      && (next.None? && (current == [] || ChunkFits(name, key, current)) ==> !ChunkFits(name, key, [unit]))
    ensures BulksLen(Flatten(current)) + BulksLen(unit) > USIZE_MAX ==>
      ChunkedCommandLen(name, key, |Flatten(current)| + |unit|, BulksLen(Flatten(current)) + BulksLen(unit)) == None
  {
    hide Flatten, CommandFrame, BulksLen, ChunkFits, Encode;
    var parts := Flatten(current);
    FlattenSnoc(current, unit);
    FlattenSnoc([], unit);
    NoUnits(unit);
    BulksLenAppend(parts, unit);
    Fitting(name, key, current + [unit], parts + unit);
    Fitting(name, key, [unit], unit);
    OverflowIsHuge(name, key, current, unit);
  }

  lemma NoUnits(unit: Unit)
    ensures Flatten<Bytes>([]) == [] && [] + [unit] == [unit] && [] + unit == unit
  {
  }

  lemma Fitting(name: Bytes, key: Bytes, units: seq<Unit>, parts: seq<Bytes>)
    requires Flatten(units) == parts
    ensures var len := |Encode(Request([name, key] + parts))|;
      && ChunkedCommandLen(name, key, |parts|, BulksLen(parts)) == (if len <= USIZE_MAX then Some(len) else None)
      && (ChunkFits(name, key, units) <==> len <= MAX_AOF_BUFFERED_FRAME_BYTES)
  {
    hide Encode, BulksLen, ChunkedCommandLen;
    ChunkedCommandLenExact(name, key, parts);
  }

  lemma ListUnit(name: Bytes, key: Bytes, values: seq<Bytes>, i: nat, current: seq<Bytes>)
    requires i < |values|
    ensures |Singles(values)| == |values| && Singles(values)[i] == [values[i]]
    ensures Singles(current + [values[i]]) == Singles(current) + [[values[i]]] && Singles([values[i]]) == [[values[i]]]
    ensures (Singles(current) == []) <==> (current == [])
    ensures Flatten(Singles(current)) == current
    ensures BulksLen([values[i]]) == BulkLen(|values[i]|)
    ensures BulksLen(current + [values[i]]) == BulksLen(current) + BulkLen(|values[i]|)
  {
    SinglesFlatten(current);
    assert [values[i]][..0] == [];
    assert (current + [values[i]])[..|current|] == current;
  }

  lemma HashUnit(name: Bytes, key: Bytes, fields: seq<(Bytes, Bytes)>, i: nat, current: seq<(Bytes, Bytes)>)
    requires i < |fields|
    ensures var (field, value) := fields[i];
      && |PairUnits(fields)| == |fields| && PairUnits(fields)[i] == [field, value]
      && PairUnits(current + [fields[i]]) == PairUnits(current) + [[field, value]]
      && PairUnits([fields[i]]) == [[field, value]]
      && ((PairUnits(current) == []) <==> (current == []))
      && Flatten(PairUnits(current)) == Unpair(current)
      && BulksLen([field, value]) == BulkLen(|field|) + BulkLen(|value|)
      && BulksLen(Unpair([fields[i]])) == BulksLen([field, value])
      && BulksLen(Unpair(current + [fields[i]])) == BulksLen(Unpair(current)) + BulksLen([field, value])
  {
    hide BulksLen;
    var (field, value) := fields[i];
    PairUnitsFlatten(current);
    UnpairSnoc(current, fields[i]);
    UnpairSnoc([], fields[i]);
    assert [] + [fields[i]] == [fields[i]] && [] + [field, value] == [field, value];
    BulksLenAppend(Unpair(current), [field, value]);
    PairLen(field, value);
  }

  lemma PairLen(field: Bytes, value: Bytes)
    ensures BulksLen([field, value]) == BulkLen(|field|) + BulkLen(|value|)
  {
    hide BulkLen;
    assert [field, value][..1] == [field] && [field][..0] == [];
    assert BulksLen([field]) == BulkLen(|field|);
  }

  lemma {:induction false} UnpairSnoc(pairs: seq<(Bytes, Bytes)>, p: (Bytes, Bytes))
    ensures Unpair(pairs + [p]) == Unpair(pairs) + [p.0, p.1]
  {
    if pairs == [] {
      assert [p][1..] == [];
    } else {
      assert (pairs + [p])[1..] == pairs[1..] + [p];
      UnpairSnoc(pairs[1..], p);
    }
  }

  lemma {:induction false} CountBelowLen(parts: seq<Bytes>)
    ensures |parts| <= BulksLen(parts)
  {
    if parts != [] {
      CountBelowLen(parts[..|parts| - 1]);
    }
  }

  /** When the length of a chunk that fits so far overflows, the new unit alone is too long. */
  lemma OverflowIsHuge(name: Bytes, key: Bytes, current: seq<Unit>, unit: Unit)
    ensures (current == [] || ChunkFits(name, key, current)) && ChunkFits(name, key, [unit]) ==>
      |Encode(Request([name, key] + (Flatten(current) + unit)))| <= USIZE_MAX
  {
    hide Encode, BulksLen;
    var parts := Flatten(current);
    FlattenSnoc([], unit);
    assert [] + [unit] == [unit] && [] + unit == unit;
    RequestLen(name, key, parts + unit);
    RequestLen(name, key, parts);
    RequestLen(name, key, unit);
    BulksLenAppend(parts, unit);
    CountBelowLen(parts);
    CountBelowLen(unit);
    if |parts + unit| + 2 <= USIZE_MAX {
      DecLenUsize(|parts + unit| + 2);
    }
  }

  lemma BaseLenIs(command: Bytes, key: Bytes, items: nat)
    ensures var len := HeaderLen(items) + BulkLen(|command|) + BulkLen(|key|);
      CommandKeyBaseLen(command, key, items) == if len <= USIZE_MAX then Some(len) else None
  {
  }

  lemma PayloadBelow(baseLen: nat, p: nat)
    requires baseLen + BulkLen(p) <= MAX_AOF_BUFFERED_FRAME_BYTES
    ensures p <= MAX_AOF_BUFFERED_FRAME_BYTES
  {
  }

  lemma AppendFits(key: Bytes, chunk: Bytes, n: nat)
    requires |chunk| <= n && AppendBase(key) + BulkLen(n) <= MAX_AOF_BUFFERED_FRAME_BYTES
    ensures Replayable(AppendFrame(key, chunk))
  {
    hide Encode;
    BulkLenMonotone(|chunk|, n);
    assert [chunk][..0] == [];
    RequestLen("APPEND", key, [chunk]);
    assert ["APPEND", key] + [chunk] == ["APPEND", key, chunk];
  }
}
