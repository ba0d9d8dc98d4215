/** How a rewrite cuts values into frames under the replay limit (`src/aof.rs`, the snapshot part). */
module Chunking {
  import opened Base
  import opened Limits
  import opened Frames
  import opened Commands
  import opened Shards

  const MAX_AOF_BUFFERED_FRAME_BYTES: nat := 64 * 1024 * 1024

  predicate Replayable(f: Frame) {
    |Encode(f)| <= MAX_AOF_BUFFERED_FRAME_BYTES
  }

  /** `frame_is_replayable`, which measures without printing. */
  predicate FrameIsReplayable(f: Frame) {
    var len := EncodedLen(f);
    len.Some? && len.value <= MAX_AOF_BUFFERED_FRAME_BYTES
  }

  lemma MeasuredIsReplayable(f: Frame)
    ensures FrameIsReplayable(f) <==> Replayable(f)
  {
    EncodedLenExact(f);
  }

  // ---- the length of a command frame ----

  function CommandKeyBaseLen(command: Bytes, key: Bytes, totalItems: nat): Option<nat> {
    var header :- RespArrayHeaderLen(totalItems);
    var name :- RespBulkLen(|command|);
    var named :- CheckedAdd(header, name);
    var keyLen :- RespBulkLen(|key|);
    CheckedAdd(named, keyLen)
  }

  function ChunkedCommandLen(command: Bytes, key: Bytes, payloadItems: nat, payloadLen: nat): Option<nat> {
    var base :- CommandKeyBaseLen(command, key, payloadItems + 2);
    CheckedAdd(base, payloadLen)
  }

  lemma RequestLen(command: Bytes, key: Bytes, parts: seq<Bytes>)
    ensures |Encode(Request([command, key] + parts))|
         == HeaderLen(|parts| + 2) + BulkLen(|command|) + BulkLen(|key|) + BulksLen(parts)
  {
    hide Encode;
    EncodedRequestLen([command, key] + parts);
    PrefixLen(command, key, parts);
  }

  lemma EncodedRequestLen(parts: seq<Bytes>)
    ensures |Encode(Request(parts))| == HeaderLen(|parts|) + BulksLen(parts)
  {
    BulksLenIsEncoded(parts);
  }

  lemma {:induction false} PrefixLen(command: Bytes, key: Bytes, parts: seq<Bytes>)
    ensures BulksLen([command, key] + parts) == BulkLen(|command|) + BulkLen(|key|) + BulksLen(parts)
  {
    hide BulkLen;
    if parts == [] {
      var both := [command, key] + parts;
      assert both[..1] == [command] && [command][..0] == [];
      assert BulksLen([command]) == BulkLen(|command|);
    } else {
      var init := parts[..|parts| - 1];
      assert ([command, key] + parts)[..|parts| + 1] == [command, key] + init;
      PrefixLen(command, key, init);
    }
  }

  /** The running sum of the chunk loops is the exact length of the frame that is built. */
  lemma ChunkedCommandLenExact(command: Bytes, key: Bytes, parts: seq<Bytes>)
    ensures var len := |Encode(Request([command, key] + parts))|;
      ChunkedCommandLen(command, key, |parts|, BulksLen(parts)) == if len <= USIZE_MAX then Some(len) else None
  {
    hide Encode, BulksLen;
    RequestLen(command, key, parts);
  }

  // ---- the greatest payload that fits ----

  /** Binary search for the greatest payload of the last bulk string; lengths grow monotonically, also
      across the steps in the number of digits. */
  method MaxPayloadLenForFrame(baseLen: nat) returns (r: Option<nat>)
    ensures r.None? <==> baseLen + BulkLen(0) > MAX_AOF_BUFFERED_FRAME_BYTES
    ensures r.Some? ==> baseLen + BulkLen(r.value) <= MAX_AOF_BUFFERED_FRAME_BYTES
    ensures r.Some? ==> forall p: nat :: p > r.value ==> baseLen + BulkLen(p) > MAX_AOF_BUFFERED_FRAME_BYTES
  {
    assert BulkLen(0) == 6;
    var least := RespBulkLen(0);
    var sum := CheckedAdd(baseLen, least.value);
    if sum.None? || sum.value > MAX_AOF_BUFFERED_FRAME_BYTES {
      return None;
    }
    var lo: nat, hi: nat := 0, Min(MAX_BULK_LEN, MAX_AOF_BUFFERED_FRAME_BYTES);
    while lo < hi
      invariant lo <= hi <= MAX_AOF_BUFFERED_FRAME_BYTES
      invariant baseLen + BulkLen(lo) <= MAX_AOF_BUFFERED_FRAME_BYTES
      invariant forall p: nat :: p > hi ==> baseLen + BulkLen(p) > MAX_AOF_BUFFERED_FRAME_BYTES
    {
      var mid := lo + (hi - lo + 1) / 2;
      DecLenUsize(mid);
      var bulkLen := RespBulkLen(mid);
      var total := CheckedAdd(baseLen, bulkLen.value);
      if total.Some? && total.value <= MAX_AOF_BUFFERED_FRAME_BYTES {
        lo := mid;
      } else {
        forall p: nat | p > mid - 1
          ensures baseLen + BulkLen(p) > MAX_AOF_BUFFERED_FRAME_BYTES
        {
          BulkLenMonotone(mid, p);
        }
        hi := mid - 1;
      }
    }
    return Some(lo);
  }

  /** The same by counting down; the search returns this number. */
  ghost function GreatestPayload(baseLen: nat, from: nat): Option<nat> {
    if baseLen + BulkLen(from) <= MAX_AOF_BUFFERED_FRAME_BYTES then Some(from)
    else if from == 0 then None
    else GreatestPayload(baseLen, from - 1)
  }

  lemma {:induction false} GreatestPayloadIs(baseLen: nat, from: nat, p: nat)
    requires baseLen + BulkLen(p) <= MAX_AOF_BUFFERED_FRAME_BYTES && p <= from
    requires forall q: nat :: p < q <= from ==> baseLen + BulkLen(q) > MAX_AOF_BUFFERED_FRAME_BYTES
    ensures GreatestPayload(baseLen, from) == Some(p)
  {
    hide BulkLen;
    if from > p {
      GreatestPayloadIs(baseLen, from - 1, p);
    }
  }

  lemma {:induction false} NoPayload(baseLen: nat, from: nat)
    requires baseLen + BulkLen(0) > MAX_AOF_BUFFERED_FRAME_BYTES
    ensures GreatestPayload(baseLen, from) == None
  {
    hide BulkLen;
    assert baseLen + BulkLen(from) > MAX_AOF_BUFFERED_FRAME_BYTES by {
      BulkLenMonotone(0, from);
    }
    if from > 0 {
      NoPayload(baseLen, from - 1);
    }
  }

  // ---- lists and hashes ----

  /** What a chunk must not separate: one list element, or a field with its value. */
  type Unit = seq<Bytes>

  function CommandFrame(name: Bytes, key: Bytes, units: seq<Unit>): Frame {
    Request([name, key] + Flatten(units))
  }

  predicate ChunkFits(name: Bytes, key: Bytes, units: seq<Unit>) {
    Replayable(CommandFrame(name, key, units))
  }

  /** Greedy chunks of at most 64 MiB; `None` when a unit does not fit on its own. */
  function Chunks(name: Bytes, key: Bytes, units: seq<Unit>, current: seq<Unit>): Option<seq<seq<Unit>>>
    decreases |units|
  {
    if units == [] then Some(if current == [] then [] else [current])
    else if ChunkFits(name, key, current + [units[0]]) then Chunks(name, key, units[1..], current + [units[0]])
    else if current == [] || !ChunkFits(name, key, [units[0]]) then None
    else
      var rest :- Chunks(name, key, units[1..], [units[0]]);
      Some([current] + rest)
  }

  /** The chunks, one after the other, are the units, in order. */
  lemma {:induction false} ChunksLoseNothing(name: Bytes, key: Bytes, units: seq<Unit>, current: seq<Unit>)
    ensures var r := Chunks(name, key, units, current); r.Some? ==> Flatten(r.value) == current + units
    decreases |units|
  {
    hide ChunkFits;
    if units != [] {
      assert current + units == (current + [units[0]]) + units[1..];
      assert units == [units[0]] + units[1..];
      ChunksLoseNothing(name, key, units[1..], current + [units[0]]);
      ChunksLoseNothing(name, key, units[1..], [units[0]]);
      var rest := Chunks(name, key, units[1..], [units[0]]);
      if rest.Some? {
        assert ([current] + rest.value)[1..] == rest.value;
      }
    } else if current != [] {
      assert [current][1..] == [] && Flatten([current]) == current + Flatten([current][1..]);
    }
  }

  /** No chunk is empty and every chunk fits, so flushing one never fails for its size. */
  lemma {:induction false} ChunksFit(name: Bytes, key: Bytes, units: seq<Unit>, current: seq<Unit>)
    requires current == [] || ChunkFits(name, key, current)
    ensures var r := Chunks(name, key, units, current);
      r.Some? ==> forall i :: 0 <= i < |r.value| ==> r.value[i] != [] && ChunkFits(name, key, r.value[i])
    decreases |units|
  {
    hide ChunkFits;
    if units != [] {
      if ChunkFits(name, key, current + [units[0]]) {
        ChunksFit(name, key, units[1..], current + [units[0]]);
      } else if ChunkFits(name, key, [units[0]]) {
        ChunksFit(name, key, units[1..], [units[0]]);
      }
    }
  }

  /** Chunking fails exactly when some unit does not fit into a frame of its own. */
  lemma {:induction false} ChunksFailIff(name: Bytes, key: Bytes, units: seq<Unit>, current: seq<Unit>)
    requires current == [] || ChunkFits(name, key, current)
    ensures Chunks(name, key, units, current).Some?
      <==> forall i :: 0 <= i < |units| ==> ChunkFits(name, key, [units[i]])
    decreases |units|
  {
    hide ChunkFits;
    if units != [] {
      assert forall i :: 1 <= i < |units| ==> units[i] == units[1..][i - 1];
      assert [] + [units[0]] == [units[0]];
      if ChunkFits(name, key, current + [units[0]]) {
        LastFits(name, key, current, units[0]);
        ChunksFailIff(name, key, units[1..], current + [units[0]]);
      } else if ChunkFits(name, key, [units[0]]) {
        ChunksFailIff(name, key, units[1..], [units[0]]);
      }
    }
  }

  lemma LastFits(name: Bytes, key: Bytes, current: seq<Unit>, unit: Unit)
    requires ChunkFits(name, key, current + [unit])
    ensures ChunkFits(name, key, [unit])
  {
    hide Encode, BulksLen;
    FlattenSnoc(current, unit);
    FlattenSnoc([], unit);
    assert [] + [unit] == [unit] && Flatten([unit]) == unit;
    RequestLen(name, key, Flatten(current) + unit);
    RequestLen(name, key, unit);
    BulksLenAppend(Flatten(current), unit);
    DecLenMonotone(|unit| + 2, |Flatten(current) + unit| + 2);
  }

  lemma {:induction false} BulksLenAppend(a: seq<Bytes>, b: seq<Bytes>)
    ensures BulksLen(a + b) == BulksLen(a) + BulksLen(b)
  {
    if b == [] {
      assert a + b == a;
    } else {
      assert (a + b)[..|a + b| - 1] == a + b[..|b| - 1];
      BulksLenAppend(a, b[..|b| - 1]);
    }
  }

  function Singles(values: seq<Bytes>): (units: seq<Unit>)
    ensures |units| == |values|
  {
    seq(|values|, i requires 0 <= i < |values| => [values[i]])
  }

  function PairUnits(pairs: seq<(Bytes, Bytes)>): (units: seq<Unit>)
    ensures |units| == |pairs|
  {
    seq(|pairs|, i requires 0 <= i < |pairs| => [pairs[i].0, pairs[i].1])
  }

  lemma {:induction false} SinglesFlatten(values: seq<Bytes>)
    ensures Flatten(Singles(values)) == values
  {
    if values != [] {
      assert Singles(values)[1..] == Singles(values[1..]);
      SinglesFlatten(values[1..]);
    }
  }

  lemma {:induction false} PairUnitsFlatten(pairs: seq<(Bytes, Bytes)>)
    ensures Flatten(PairUnits(pairs)) == Unpair(pairs)
  {
    if pairs != [] {
      assert PairUnits(pairs)[1..] == PairUnits(pairs[1..]);
      PairUnitsFlatten(pairs[1..]);
    }
  }

  // ---- strings ----

  /** The payloads of the APPEND frames. */
  function Slices(value: Bytes, n: nat): (r: seq<Bytes>)
    requires n > 0
  {
    if value == [] then []
    else
      var end := Min(n, |value|);
      [value[..end]] + Slices(value[end..], n)
  }

  lemma {:induction false} SlicesLoseNothing(value: Bytes, n: nat)
    requires n > 0
    ensures Flatten(Slices(value, n)) == value
    ensures forall i :: 0 <= i < |Slices(value, n)| ==> 0 < |Slices(value, n)[i]| <= n
  {
    if value != [] {
      var end := Min(n, |value|);
      SlicesLoseNothing(value[end..], n);
      assert value == value[..end] + value[end..];
    }
  }
}
