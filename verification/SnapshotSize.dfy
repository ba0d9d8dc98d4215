/** How a snapshot cuts long values: into as few frames as it can in one pass, none longer than a replay takes
    (`src/aof.rs`, the snapshot part). */
module SnapshotSize {
  import opened Base
  import opened Limits
  import opened Frames
  import opened Commands
  import opened Chunking
  import opened SnapshotFile

  predicate TooLong(f: Frame) {
    |Encode(f)| > 64 * 1024 * 1024
  }

  // ---- lists and hashes ----

  /** No frame is too long, and each would be with the first unit of the next one. */
  predicate CutLate(name: Bytes, key: Bytes, chunks: seq<seq<Unit>>) {
    && (forall i :: 0 <= i < |chunks| ==> chunks[i] != [] && !TooLong(CommandFrame(name, key, chunks[i])))
    && forall i :: 0 <= i < |chunks| - 1 ==> TooLong(CommandFrame(name, key, chunks[i] + [chunks[i + 1][0]]))
  }

  lemma {:induction false} ChunksCutLate(name: Bytes, key: Bytes, units: seq<Unit>, current: seq<Unit>)
    requires current == [] || ChunkFits(name, key, current)
    ensures var r := Chunks(name, key, units, current);
      r.Some? ==>
        && CutLate(name, key, r.value)
        && (current + units == [] <==> r.value == [])
        && (r.value != [] ==> r.value[0][0] == (current + units)[0])
    decreases |units|
  {
    hide CommandFrame, Encode;
    if units != [] {
      assert (current + [units[0]]) + units[1..] == current + units;
      if ChunkFits(name, key, current + [units[0]]) {
        ChunksCutLate(name, key, units[1..], current + [units[0]]);
      } else if current != [] && ChunkFits(name, key, [units[0]]) {
        ChunksCutLate(name, key, units[1..], [units[0]]);
      }
    }
  }

  /** A list or hash is cut only where one more element, or field with its value, would make a frame too long for a
      replay; it is refused exactly if one of them is too long by itself. */
  lemma CollectionsAreCutLate(name: Bytes, key: Bytes, units: seq<Unit>)
    ensures var r := Chunks(name, key, units, []);
      if exists i :: 0 <= i < |units| && TooLong(CommandFrame(name, key, [units[i]])) then r.None?
      else r.Some? && Flatten(r.value) == units && CutLate(name, key, r.value)
  {
    hide CommandFrame, Encode, CutLate, Chunks;
    ChunksFailIff(name, key, units, []);
    ChunksLoseNothing(name, key, units, []);
    ChunksCutLate(name, key, units, []);
    assert [] + units == units;
  }

  // ---- strings ----

  /** All but the last have the given length. */
  predicate Full(slices: seq<Bytes>, n: nat) {
    forall i :: 0 <= i < |slices| - 1 ==> |slices[i]| == n
  }

  lemma {:induction false} SlicesAreFull(value: Bytes, n: nat)
    requires n > 0
    ensures Full(Slices(value, n), n)
  {
    if |value| > n {
      SlicesAreFull(value[n..], n);
      assert Slices(value, n) == [value[..n]] + Slices(value[n..], n);
    } else if value != [] {
      assert value[|value|..] == [];
    }
  }

  lemma AppendLen(key: Bytes, chunk: Bytes)
    ensures |Encode(AppendFrame(key, chunk))| == AppendBase(key) + BulkLen(|chunk|)
  {
    hide Encode, BulkLen, HeaderLen;
    RequestLen("APPEND", key, [chunk]);
    assert ["APPEND", key] + [chunk] == ["APPEND", key, chunk];
    assert [chunk][..0] == [];
  }

  lemma {:induction false} GreatestPayloadMeans(baseLen: nat, from: nat)
    ensures var n := GreatestPayload(baseLen, from);
      && (n.None? ==> baseLen + BulkLen(0) > 64 * 1024 * 1024)
      && (n.Some? ==> n.value <= from && baseLen + BulkLen(n.value) <= 64 * 1024 * 1024)
      && (n.Some? && n.value < from ==> baseLen + BulkLen(n.value + 1) > 64 * 1024 * 1024)
  {
    hide BulkLen;
    if baseLen + BulkLen(from) > MAX_AOF_BUFFERED_FRAME_BYTES && from > 0 {
      GreatestPayloadMeans(baseLen, from - 1);
    }
  }

  /** The slices make up the string; no APPEND is too long, and each but the last would be with one more byte. */
  ghost predicate SlicedLate(key: Bytes, value: Bytes, slices: seq<Bytes>) {
    && Flatten(slices) == value
    && (forall i :: 0 <= i < |slices| ==> slices[i] != [] && !TooLong(AppendFrame(key, slices[i])))
    && forall i, b :: 0 <= i < |slices| - 1 ==> TooLong(AppendFrame(key, slices[i] + [b]))
  }

  lemma SlicesAreLate(key: Bytes, value: Bytes, n: nat)
    requires GreatestPayload(AppendBase(key), MAX_AOF_BUFFERED_FRAME_BYTES) == Some(n) && (n > 0 || value == [])
    ensures SlicedLate(key, value, AllSlices(value, n))
  {
    hide AppendFrame, Encode, BulkLen, AppendBase, GreatestPayload, Slices, Flatten;
    NoSlices();
    if value != [] {
      var slices := Slices(value, n);
      GreatestPayloadMeans(AppendBase(key), MAX_AOF_BUFFERED_FRAME_BYTES);
      SlicesLoseNothing(value, n);
      SlicesAreFull(value, n);
      forall i | 0 <= i < |slices|
        ensures !TooLong(AppendFrame(key, slices[i]))
      {
        AppendLen(key, slices[i]);
        BulkLenMonotone(|slices[i]|, n);
      }
      forall i, b | 0 <= i < |slices| - 1
        ensures TooLong(AppendFrame(key, slices[i] + [b]))
      {
        AppendLen(key, slices[i] + [b]);
        LongerThanLimit(n);
      }
    }
  }

  lemma NoSlices()
    ensures Flatten<char>([]) == []
  {
  }

  lemma LongerThanLimit(n: nat)
    ensures BulkLen(n) > n
  {
  }

  /** A string goes into one SET if that is not too long for a replay. Otherwise an empty SET is followed by APPENDs,
      each but the last as long as a replay takes, and by the deadline; it is refused exactly if one of these, with a
      single byte to append, is too long. */
  lemma StringsAreCutLate(key: Bytes, value: Bytes, expiresAt: Option<Millis>, clock: Millis)
    ensures var whole, empty := SetFrame(key, value, expiresAt, clock), SetFrame(key, [], None, clock);
      var fs := StringFrames(key, value, expiresAt, clock);
      if !TooLong(whole) then fs == Some([whole])
      else if TooLong(empty) || TooLong(AppendFrame(key, if value == [] then [] else value[..1])) then fs == None
      else if expiresAt.Some? && TooLong(ExpiryFrame(key, expiresAt.value, clock)) then fs == None
      else
        var expiry := if expiresAt.Some? then [ExpiryFrame(key, expiresAt.value, clock)] else [];
        fs.Some? && exists slices :: SlicedLate(key, value, slices) && fs.value == [empty] + Appended(key, slices) + expiry
  {
    hide SetFrame, AppendFrame, ExpiryFrame, Encode, GreatestPayload, AppendBase, AllSlices, Appended, SlicedLate, BulkLen;
    var one := if value == [] then [] else value[..1];
    var n := GreatestPayload(AppendBase(key), MAX_AOF_BUFFERED_FRAME_BYTES);
    AppendLen(key, one);
    GreatestPayloadMeans(AppendBase(key), MAX_AOF_BUFFERED_FRAME_BYTES);
    BulkLenMonotone(0, |one|);
    if n.Some? {
      if n.value > 0 {
        BulkLenMonotone(|one|, n.value);
      }
      if n.value > 0 || value == [] {
        SlicesAreLate(key, value, n.value);
      }
      LongerThanLimit(MAX_AOF_BUFFERED_FRAME_BYTES);
    }
  }
}
