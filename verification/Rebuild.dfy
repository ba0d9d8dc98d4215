/** Replaying a snapshot rebuilds the keyspace it was taken of. */
module Rebuild {
  import opened Base
  import opened Limits
  import opened Frames
  import opened Parser
  import opened Streaming
  import opened Blanks
  import opened RoundTrip
  import opened Commands
  import opened Semantics
  import opened Ordering
  import opened Laws
  import opened Replay
  import opened Requests
  import opened LogRuns
  import opened Shards
  import opened Chunking
  import opened SnapshotFile
  import opened Database
  import Codec
  import Sizes

  // ---- one command ----

  /** A frame that decodes to a command about one key does what the command does there. */
  lemma KeyedReplays(f: Frame, c: Command, m: Keyspace, now: Millis)
    requires FromFrame(f, now) == Ok(c) && Keyed(c) && NoneExpired(m, now)
    requires !KeyExec(c, Lookup(m, c.key), now).reply.Error?
    ensures Replayed([f], m, now) == Some(Put(m, c.key, KeyExec(c, Lookup(m, c.key), now).entry))
  {
    hide FromFrame, KeyExec;
    LiveIsFresh(m, now);
    ReplayedOne(f, m, now);
  }

  lemma Overwritten(m: Keyspace, was: Keyspace, key: Bytes, e: Entry)
    requires was - {key} == m - {key}
    ensures Put(was, key, Some(e)) == m[key := e]
  {
    var a, b := was[key := e], m[key := e];
    forall k
      ensures Lookup(a, k) == Lookup(b, k)
    {
      assert k != key ==> Lookup(was, k) == Lookup(was - {key}, k) && Lookup(m, k) == Lookup(m - {key}, k);
    }
    SameLookups(a, b);
  }

  // ---- lists ----

  function Grown(m: Keyspace, key: Bytes, items: seq<Bytes>): Keyspace {
    if items == [] then m else m[key := Entry(List(items), None)]
  }

  predicate PushesFurther(chunks: seq<seq<Unit>>) {
    forall i :: 0 <= i < |chunks| ==> Flatten(chunks[i]) != []
  }

  /** RPUSH frames append chunk after chunk. */
  lemma {:induction false} PushesReplay(key: Bytes, chunks: seq<seq<Unit>>, m: Keyspace, items: seq<Bytes>, now: Millis)
    requires key !in m && NoneExpired(m, now) && PushesFurther(chunks)
    ensures Replayed(Commanded("RPUSH", key, chunks), Grown(m, key, items), now)
         == Some(Grown(m, key, items + Flatten(Flatten(chunks))))
    decreases |chunks|
  {
    hide Applies, After, CommandFrame;
    if chunks == [] {
      assert items + Flatten(Flatten(chunks)) == items && Commanded("RPUSH", key, chunks) == [];
    } else {
      var first, rest := Flatten(chunks[0]), chunks[1..];
      PushReplays(key, chunks[0], m, items, now);
      CommandedCons("RPUSH", key, chunks);
      assert forall i :: 0 <= i < |rest| ==> rest[i] == chunks[i + 1];
      PushesReplay(key, rest, m, items + first, now);
      ReplayedAppend([CommandFrame("RPUSH", key, chunks[0])], Commanded("RPUSH", key, rest), Grown(m, key, items), now);
      FlattenAppend(chunks[0], Flatten(rest));
      assert items + (first + Flatten(Flatten(rest))) == (items + first) + Flatten(Flatten(rest));
    }
  }

  lemma CommandedCons(name: Bytes, key: Bytes, chunks: seq<seq<Unit>>)
    requires chunks != []
    ensures Commanded(name, key, chunks) == [CommandFrame(name, key, chunks[0])] + Commanded(name, key, chunks[1..])
  {
    hide CommandFrame;
  }

  lemma PushReplays(key: Bytes, chunk: seq<Unit>, m: Keyspace, items: seq<Bytes>, now: Millis)
    requires key !in m && NoneExpired(m, now) && Flatten(chunk) != []
    ensures Replayed([CommandFrame("RPUSH", key, chunk)], Grown(m, key, items), now)
         == Some(Grown(m, key, items + Flatten(chunk)))
  {
    hide FromFrame, Replayed, Flatten;
    Codec.PushDecodes(false, key, Flatten(chunk), now);
    var c, was := RPush(key, Flatten(chunk)), Grown(m, key, items);
    assert [] + Flatten(chunk) == Flatten(chunk);
    assert KeyExec(c, Lookup(was, key), now).entry == Some(Entry(List(items + Flatten(chunk)), None));
    KeyedReplays(CommandFrame("RPUSH", key, chunk), c, was, now);
    Overwritten(m, was, key, Entry(List(items + Flatten(chunk)), None));
  }

  // ---- hashes ----

  function Fielded(m: Keyspace, key: Bytes, fields: map<Bytes, Bytes>): Keyspace {
    if fields == map[] then m else m[key := Entry(Hash(fields), None)]
  }

  predicate ArePairs(units: seq<Unit>) {
    forall i :: 0 <= i < |units| ==> |units[i]| == 2
  }

  function PairsIn(units: seq<Unit>): (pairs: seq<(Bytes, Bytes)>)
    requires ArePairs(units)
    ensures |pairs| == |units|
  {
    seq(|units|, i requires 0 <= i < |units| => (units[i][0], units[i][1]))
  }

  predicate SetsFurther(chunks: seq<seq<Unit>>) {
    forall i :: 0 <= i < |chunks| ==> chunks[i] != [] && ArePairs(chunks[i])
  }

  lemma {:induction false} WithFieldsAppend(fields: map<Bytes, Bytes>, a: seq<(Bytes, Bytes)>, b: seq<(Bytes, Bytes)>)
    ensures WithFields(fields, a + b) == WithFields(WithFields(fields, a), b)
    decreases |a|
  {
    if a == [] {
      assert a + b == b;
    } else {
      assert (a + b)[0] == a[0] && (a + b)[1..] == a[1..] + b;
      WithFieldsAppend(fields[a[0].0 := a[0].1], a[1..], b);
    }
  }

  lemma {:induction false} WithFieldsNotEmpty(fields: map<Bytes, Bytes>, pairs: seq<(Bytes, Bytes)>)
    requires fields != map[] || pairs != []
    ensures WithFields(fields, pairs) != map[]
    decreases |pairs|
  {
    if pairs != [] {
      assert pairs[0].0 in fields[pairs[0].0 := pairs[0].1];
      WithFieldsNotEmpty(fields[pairs[0].0 := pairs[0].1], pairs[1..]);
    }
  }

  /** Setting each field of a hash once builds the hash. */
  lemma {:induction false} WithAllFields(fields: map<Bytes, Bytes>, pairs: seq<(Bytes, Bytes)>, n: nat)
    requires Lists(pairs, fields) && n <= |pairs|
    ensures forall f :: f in WithFields(map[], pairs[..n]) <==> exists i :: 0 <= i < n && pairs[i].0 == f
    ensures forall f :: f in WithFields(map[], pairs[..n]) ==> f in fields && WithFields(map[], pairs[..n])[f] == fields[f]
  {
    if n == 0 {
      assert pairs[..0] == [];
    } else {
      WithAllFields(fields, pairs, n - 1);
      assert pairs[..n] == pairs[..n - 1] + [pairs[n - 1]];
      WithFieldsAppend(map[], pairs[..n - 1], [pairs[n - 1]]);
      var before := WithFields(map[], pairs[..n - 1]);
      assert [pairs[n - 1]][1..] == [];
      assert WithFields(before, [pairs[n - 1]]) == before[pairs[n - 1].0 := pairs[n - 1].1];
    }
  }

  lemma AllFieldsBuild(fields: map<Bytes, Bytes>, pairs: seq<(Bytes, Bytes)>)
    requires Lists(pairs, fields)
    ensures WithFields(map[], pairs) == fields
  {
    WithAllFields(fields, pairs, |pairs|);
    assert pairs[..|pairs|] == pairs;
    var r := WithFields(map[], pairs);
    assert r.Keys == fields.Keys;
  }

  lemma {:induction false} PairsInFlatten(units: seq<Unit>)
    requires ArePairs(units)
    ensures Flatten(units) == Unpair(PairsIn(units))
  {
    if units != [] {
      assert PairsIn(units)[1..] == PairsIn(units[1..]);
      PairsInFlatten(units[1..]);
    }
  }

  lemma SetReplays(key: Bytes, chunk: seq<Unit>, m: Keyspace, fields: map<Bytes, Bytes>, now: Millis)
    requires key !in m && NoneExpired(m, now) && chunk != [] && ArePairs(chunk)
    ensures Replayed([CommandFrame("HSET", key, chunk)], Fielded(m, key, fields), now)
         == Some(Fielded(m, key, WithFields(fields, PairsIn(chunk))))
  {
    hide FromFrame, Replayed, Flatten, WithFields, AddedFields;
    var pairs := PairsIn(chunk);
    var c, was := HSet(key, pairs), Fielded(m, key, fields);
    PairsInFlatten(chunk);
    Codec.HashDecodes(c, now, now);
    WithFieldsNotEmpty(fields, pairs);
    assert KeyExec(c, Lookup(was, key), now).entry == Some(Entry(Hash(WithFields(fields, pairs)), None));
    KeyedReplays(CommandFrame("HSET", key, chunk), c, was, now);
    Overwritten(m, was, key, Entry(Hash(WithFields(fields, pairs)), None));
  }

  /** HSET frames set the fields chunk after chunk. */
  lemma {:induction false} SetsReplay(key: Bytes, chunks: seq<seq<Unit>>, m: Keyspace, fields: map<Bytes, Bytes>, now: Millis)
    requires key !in m && NoneExpired(m, now) && SetsFurther(chunks)
    ensures ArePairs(Flatten(chunks))
    ensures Replayed(Commanded("HSET", key, chunks), Fielded(m, key, fields), now)
         == Some(Fielded(m, key, WithFields(fields, PairsIn(Flatten(chunks)))))
    decreases |chunks|
  {
    hide Applies, After, CommandFrame;
    if chunks == [] {
      assert PairsIn(Flatten(chunks)) == [] && Commanded("HSET", key, chunks) == [];
    } else {
      var rest := chunks[1..];
      SetReplays(key, chunks[0], m, fields, now);
      CommandedCons("HSET", key, chunks);
      assert forall i :: 0 <= i < |rest| ==> rest[i] == chunks[i + 1];
      var fields' := WithFields(fields, PairsIn(chunks[0]));
      SetsReplay(key, rest, m, fields', now);
      ReplayedAppend([CommandFrame("HSET", key, chunks[0])], Commanded("HSET", key, rest), Fielded(m, key, fields), now);
      assert PairsIn(chunks[0] + Flatten(rest)) == PairsIn(chunks[0]) + PairsIn(Flatten(rest));
      WithFieldsAppend(fields, PairsIn(chunks[0]), PairsIn(Flatten(rest)));
    }
  }

  // ---- strings ----

  lemma AppendReplays(key: Bytes, chunk: Bytes, m: Keyspace, bytes: Bytes, now: Millis)
    requires NoneExpired(m, now) && BulkResponseFits(|bytes| + |chunk|)
    ensures Replayed([AppendFrame(key, chunk)], m[key := Entry(Str(bytes), None)], now)
         == Some(m[key := Entry(Str(bytes + chunk), None)])
  {
    hide FromFrame, Replayed, BulkResponseFits;
    var c, was := Append(key, chunk), m[key := Entry(Str(bytes), None)];
    Codec.StringDecodes(c, now, now);
    assert KeyExec(c, Lookup(was, key), now).entry == Some(Entry(Str(bytes + chunk), None));
    KeyedReplays(AppendFrame(key, chunk), c, was, now);
    Overwritten(m, was, key, Entry(Str(bytes + chunk), None));
  }

  /** APPEND frames append slice after slice. */
  lemma {:induction false} AppendsReplay(key: Bytes, slices: seq<Bytes>, m: Keyspace, bytes: Bytes, now: Millis)
    requires NoneExpired(m, now) && BulkResponseFits(|bytes + Flatten(slices)|)
    ensures Replayed(Appended(key, slices), m[key := Entry(Str(bytes), None)], now)
         == Some(m[key := Entry(Str(bytes + Flatten(slices)), None)])
    decreases |slices|
  {
    hide Applies, After, AppendFrame, BulkResponseFits;
    if slices == [] {
      assert bytes + Flatten(slices) == bytes && Appended(key, slices) == [];
    } else {
      var rest := slices[1..];
      assert bytes + Flatten(slices) == (bytes + slices[0]) + Flatten(rest);
      BulkFitsMonotone(|bytes| + |slices[0]|, |bytes + Flatten(slices)|);
      AppendReplays(key, slices[0], m, bytes, now);
      assert Appended(key, slices) == [AppendFrame(key, slices[0])] + Appended(key, rest);
      AppendsReplay(key, rest, m, bytes + slices[0], now);
      ReplayedAppend([AppendFrame(key, slices[0])], Appended(key, rest), m[key := Entry(Str(bytes), None)], now);
    }
  }

  /** One SET frame. */
  lemma SetFrameReplays(key: Bytes, value: Bytes, expiresAt: Option<Millis>, clock: Millis, m: Keyspace, now: Millis)
    requires NoneExpired(m, now) && BulkResponseFits(|value|)
    requires expiresAt.Some? ==> clock < expiresAt.value
    ensures var back := Codec.ReadDeadline(true, expiresAt, clock, now);
      Replayed([SetFrame(key, value, expiresAt, clock)], m, now)
      == if back.None? then None else Some(Put(m, key, Fresh(Some(Entry(Str(value), back.value)), now)))
  {
    hide FromFrame, Replayed, BulkResponseFits, Codec.ReadDeadline, DecodeSet;
    var f := SetFrame(key, value, expiresAt, clock);
    SetFrameDecodes(key, value, expiresAt, clock, now);
    var back := Codec.ReadDeadline(true, expiresAt, clock, now);
    if back.Some? {
      KeyedReplays(f, Set(key, value, back.value), m, now);
    } else {
      ReplayedOne(f, m, now);
    }
  }

  lemma SetFrameDecodes(key: Bytes, value: Bytes, expiresAt: Option<Millis>, clock: Millis, now: Millis)
    requires expiresAt.Some? ==> clock < expiresAt.value
    ensures var back := Codec.ReadDeadline(true, expiresAt, clock, now);
      FromFrame(SetFrame(key, value, expiresAt, clock), now)
      == if back.Some? then Ok(Set(key, value, back.value)) else Err(InvalidExpireTime)
  {
    hide FromFrame, Codec.ReadDeadline, DecodeSet, SetExpiry;
    var args := [key, value] + SetExpiry(expiresAt, clock);
    assert ["SET", key, value] + SetExpiry(expiresAt, clock) == ["SET"] + args;
    Codec.RequestDecodes(SET, args, now);
    Codec.SetReadsBack(key, value, expiresAt, clock, now);
  }

  // ---- deadlines ----

  lemma ExpiryFrameDecodes(key: Bytes, deadline: Millis, clock: Millis, now: Millis)
    ensures var back := Codec.ReadDeadline(false, Some(deadline), clock, now);
      FromFrame(ExpiryFrame(key, deadline, clock), now)
      == if back.None? then Err(InvalidExpireTime)
         else if deadline <= MAX_EXPIRE_AT_MS then Ok(PExpireAt(key, back.value.value))
         else Ok(PExpire(key, back.value.value))
  {
    hide FromFrame, Dec;
    if deadline <= MAX_EXPIRE_AT_MS {
      Codec.ExpiryRequestDecodes(key, deadline, now);
    } else {
      Codec.PExpireReadsBack(key, deadline, clock, now);
    }
  }

  /** The expiry frame gives the entry a deadline, or drops it when that has passed. */
  lemma ExpiryReplays(key: Bytes, e: Entry, expiresAt: Option<Millis>, clock: Millis, fs: seq<Frame>, m: Keyspace, now: Millis)
    requires NoneExpired(m, now) && e.expiresAt == None
    requires ExpiryFrames(key, expiresAt, clock) == Some(fs)
    ensures var back := Codec.ReadDeadline(false, expiresAt, clock, now);
      Replayed(fs, m[key := e], now)
      == if back.None? then None else Some(Put(m, key, Fresh(Some(e.(expiresAt := back.value)), now)))
  {
    hide FromFrame, Step, Replayable, ExpiryFrame;
    if expiresAt.Some? {
      var f := ExpiryFrame(key, expiresAt.value, clock);
      ExpiryFrameDecodes(key, expiresAt.value, clock, now);
      var back := Codec.ReadDeadline(false, expiresAt, clock, now);
      if back.Some? {
        var deadline := back.value.value;
        var c := if expiresAt.value <= MAX_EXPIRE_AT_MS then PExpireAt(key, deadline) else PExpire(key, deadline);
        KeyedReplays(f, c, m[key := e], now);
        assert Put(m[key := e], key, KeyExec(c, Some(e), now).entry) == Put(m, key, KeyExec(c, Some(e), now).entry);
      } else {
        ReplayedOne(f, m[key := e], now);
      }
    }
  }

  // ---- one entry ----

  predicate InOneSet(key: Bytes, entry: Entry, clock: Millis) {
    entry.value.Str? && FrameIsReplayable(SetFrame(key, entry.value.bytes, entry.expiresAt, clock))
  }

  /** What the replay of an entry's frames leaves under its key; `None` if a frame is refused. A
      deadline over 2^63 - 1 can only be written relative to the clock. */
  function Rebuilt(key: Bytes, entry: Entry, clock: Millis, now: Millis): Option<Option<Entry>> {
    if Expired(entry, clock) then Some(None)
    else
      var back :- Codec.ReadDeadline(InOneSet(key, entry, clock), entry.expiresAt, clock, now);
      Some(Fresh(Some(entry.(expiresAt := back)), now))
  }

  /** The deadline of an entry survives a rewrite: it is not huge, or due, or it stands in a SET and the
      clock has moved by no more than the relative form was cut short by. */
  predicate DeadlineComesBack(key: Bytes, entry: Entry, clock: Millis, now: Millis) {
    entry.expiresAt.None? || entry.expiresAt.value <= MAX_EXPIRE_AT_MS || Expired(entry, clock) ||
    var d := entry.expiresAt.value;
    InOneSet(key, entry, clock) && now + RelativeMillis(d, clock) == d && d <= U128_MAX
  }

  ghost function PutBack(m: Keyspace, key: Bytes, back: Option<Option<Entry>>): Option<Keyspace> {
    if back.None? then None else Some(Put(m, key, back.value))
  }

  lemma StringRebuilds(fs: seq<Frame>, key: Bytes, entry: Entry, clock: Millis, m: Keyspace, now: Millis)
    requires entry.value.Str? && Sizes.ValueFits(entry.value) && !Expired(entry, clock)
    requires StringFrames(key, entry.value.bytes, entry.expiresAt, clock) == Some(fs)
    requires key !in m && NoneExpired(m, now)
    ensures Replayed(fs, m, now) == PutBack(m, key, Rebuilt(key, entry, clock, now))
  {
    hide Replayed, Replayable, SetFrame, ExpiryFrames, GreatestPayload, AppendBase, BulkResponseFits, Slices,
         Codec.ReadDeadline;
    var value := entry.value.bytes;
    MeasuredIsReplayable(SetFrame(key, value, entry.expiresAt, clock));
    if Replayable(SetFrame(key, value, entry.expiresAt, clock)) {
      SetFrameReplays(key, value, entry.expiresAt, clock, m, now);
    } else {
      SlicedReplays(fs, key, entry, clock, m, now);
    }
  }

  lemma SlicedReplays(fs: seq<Frame>, key: Bytes, entry: Entry, clock: Millis, m: Keyspace, now: Millis)
    requires entry.value.Str? && Sizes.ValueFits(entry.value) && !Expired(entry, clock)
    requires StringFrames(key, entry.value.bytes, entry.expiresAt, clock) == Some(fs)
    requires !Replayable(SetFrame(key, entry.value.bytes, entry.expiresAt, clock))
    requires key !in m && NoneExpired(m, now)
    ensures Replayed(fs, m, now) == PutBack(m, key, Rebuilt(key, entry, clock, now))
  {
    hide Replayed, Replayable, SetFrame, ExpiryFrames, GreatestPayload, AppendBase, BulkResponseFits, Slices,
         RelativeMillis;
    var value := entry.value.bytes;
    MeasuredIsReplayable(SetFrame(key, value, entry.expiresAt, clock));
    var n := GreatestPayload(AppendBase(key), MAX_AOF_BUFFERED_FRAME_BYTES).value;
    var slices := AllSlices(value, n);
    var expiry := ExpiryFrames(key, entry.expiresAt, clock).value;
    var setFrame := SetFrame(key, [], None, clock);
    BulkFitsMonotone(0, |value|);
    SetFrameReplays(key, [], None, clock, m, now);
    if value != [] {
      SlicesLoseNothing(value, n);
    }
    assert [] + Flatten(slices) == value;
    AppendsReplay(key, slices, m, [], now);
    ReplayedAppend([setFrame], Appended(key, slices), m, now);
    ReplayedAppend([setFrame] + Appended(key, slices), expiry, m, now);
    ExpiryReplays(key, Entry(Str(value), None), entry.expiresAt, clock, expiry, m, now);
  }

  lemma {:induction false} UnitsInside(chunks: seq<seq<Unit>>, units: seq<Unit>)
    requires Flatten(chunks) == units
    ensures forall i, j :: 0 <= i < |chunks| && 0 <= j < |chunks[i]| ==> chunks[i][j] in units
    decreases |chunks|
  {
    if chunks != [] {
      UnitsInside(chunks[1..], Flatten(chunks[1..]));
      forall i, j | 0 <= i < |chunks| && 0 <= j < |chunks[i]|
        ensures chunks[i][j] in units
      {
        if i == 0 {
          assert units[j] == chunks[0][j];
        } else {
          assert chunks[1..][i - 1] == chunks[i];
          assert chunks[1..][i - 1][j] in Flatten(chunks[1..]);
          var l :| 0 <= l < |Flatten(chunks[1..])| && Flatten(chunks[1..])[l] == chunks[i][j];
          assert units[|chunks[0]| + l] == chunks[i][j];
        }
      }
    }
  }

  lemma ListRebuilds(fs: seq<Frame>, key: Bytes, entry: Entry, clock: Millis, m: Keyspace, now: Millis)
    requires entry.value.List? && entry.value.items != [] && !Expired(entry, clock)
    requires CollectionFrames("RPUSH", key, Singles(entry.value.items), entry.expiresAt, clock) == Some(fs)
    requires key !in m && NoneExpired(m, now)
    ensures Replayed(fs, m, now) == PutBack(m, key, Rebuilt(key, entry, clock, now))
  {
    hide Replayed, ExpiryFrames, Chunks, Commanded, ChunkFits, Codec.ReadDeadline;
    var items := entry.value.items;
    var chunks := Chunks("RPUSH", key, Singles(items), []).value;
    var expiry := ExpiryFrames(key, entry.expiresAt, clock).value;
    ChunksLoseNothing("RPUSH", key, Singles(items), []);
    ChunksFit("RPUSH", key, Singles(items), []);
    assert [] + Singles(items) == Singles(items) && [] + items == items;
    UnitsInside(chunks, Singles(items));
    SinglesFlatten(items);
    forall i | 0 <= i < |chunks|
      ensures Flatten(chunks[i]) != []
    {
      assert chunks[i][0] in Singles(items);
      assert Flatten(chunks[i]) == chunks[i][0] + Flatten(chunks[i][1..]);
    }
    PushesReplay(key, chunks, m, [], now);
    ReplayedAppend(Commanded("RPUSH", key, chunks), expiry, m, now);
    ExpiryReplays(key, Entry(entry.value, None), entry.expiresAt, clock, expiry, m, now);
  }

  lemma HashRebuilds(fs: seq<Frame>, key: Bytes, entry: Entry, clock: Millis, m: Keyspace, now: Millis)
    requires entry.value.Hash? && entry.value.fields != map[] && !Expired(entry, clock)
    requires CollectionFrames("HSET", key, PairUnits(Listed(entry.value.fields)), entry.expiresAt, clock) == Some(fs)
    requires key !in m && NoneExpired(m, now)
    ensures Replayed(fs, m, now) == PutBack(m, key, Rebuilt(key, entry, clock, now))
  {
    hide Replayed, ExpiryFrames, Chunks, Commanded, Flatten, ChunkFits, WithFields, Listed, Lists, Codec.ReadDeadline;
    var fields := entry.value.fields;
    var pairs := Listed(fields);
    var units := PairUnits(pairs);
    var chunks := Chunks("HSET", key, units, []).value;
    var expiry := ExpiryFrames(key, entry.expiresAt, clock).value;
    ChunksLoseNothing("HSET", key, units, []);
    ChunksFit("HSET", key, units, []);
    assert [] + units == units;
    UnitsInside(chunks, units);
    assert SetsFurther(chunks);
    SetsReplay(key, chunks, m, map[], now);
    assert PairsIn(units) == pairs;
    AllFieldsBuild(fields, pairs);
    ReplayedAppend(Commanded("HSET", key, chunks), expiry, m, now);
    ExpiryReplays(key, Entry(entry.value, None), entry.expiresAt, clock, expiry, m, now);
  }

  /** The frames of an entry, replayed at any time, build that entry with the deadline that comes back,
      nothing when it is due, and are refused when the deadline is. */
  lemma EntryReplays(fs: seq<Frame>, key: Bytes, entry: Entry, clock: Millis, m: Keyspace, now: Millis)
    requires EntryFrames(key, entry, clock) == Some(fs) && Sizes.ValueFits(entry.value)
    requires key !in m && NoneExpired(m, now)
    ensures Replayed(fs, m, now) == PutBack(m, key, Rebuilt(key, entry, clock, now))
  {
    hide Applies, After, StringFrames, CollectionFrames, InOneSet, BulkResponseFits, Codec.ReadDeadline, Listed;
    if Expired(entry, clock) {
      assert Put(m, key, None) == m;
    } else {
      match entry.value
      case Str(_) => StringRebuilds(fs, key, entry, clock, m, now);
      case List(_) => ListRebuilds(fs, key, entry, clock, m, now);
      case Hash(_) => HashRebuilds(fs, key, entry, clock, m, now);
    }
  }

  lemma RebuiltExactly(key: Bytes, entry: Entry, clock: Millis, now: Millis)
    requires clock <= now
    ensures Rebuilt(key, entry, clock, now) == Some(Fresh(Some(entry), now)) <==> DeadlineComesBack(key, entry, clock, now)
  {
    hide InOneSet;
  }

  /** The frames of an entry, replayed at any later time, build exactly that entry, or nothing when its
      deadline has passed by then, if and only if its deadline comes back. */
  lemma EntryRebuilds(fs: seq<Frame>, key: Bytes, entry: Entry, clock: Millis, m: Keyspace, now: Millis)
    requires EntryFrames(key, entry, clock) == Some(fs) && Sizes.ValueFits(entry.value) && clock <= now
    requires key !in m && NoneExpired(m, now)
    ensures Replayed(fs, m, now) == Some(Put(m, key, Fresh(Some(entry), now))) <==> DeadlineComesBack(key, entry, clock, now)
  {
    hide Replayed, EntryFrames, Rebuilt, DeadlineComesBack, Sizes.ValueFits;
    EntryReplays(fs, key, entry, clock, m, now);
    RebuiltExactly(key, entry, clock, now);
    assert Lookup(Put(m, key, Fresh(Some(entry), now)), key) == Fresh(Some(entry), now);
    if Rebuilt(key, entry, clock, now).Some? {
      var back := Rebuilt(key, entry, clock, now).value;
      assert Lookup(Put(m, key, back), key) == back;
    }
  }

  // ---- the whole snapshot ----

  /** The entries one after the other as they come back; `None` if one is refused. */
  function Gathered(entries: seq<(Bytes, Entry)>, clocks: seq<Millis>, now: Millis): Option<Keyspace>
    requires |entries| <= |clocks|
  {
    if entries == [] then Some(map[])
    else
      var n := |entries| - 1;
      var before :- Gathered(entries[..n], clocks, now);
      var back :- Rebuilt(entries[n].0, entries[n].1, clocks[n], now);
      Some(Put(before, entries[n].0, back))
  }

  lemma GatheredStep(entries: seq<(Bytes, Entry)>, clocks: seq<Millis>, now: Millis, n: nat)
    requires n < |entries| <= |clocks|
    ensures var before, back := Gathered(entries[..n], clocks, now), Rebuilt(entries[n].0, entries[n].1, clocks[n], now);
      Gathered(entries[..n + 1], clocks, now)
      == if before.None? || back.None? then None else Some(Put(before.value, entries[n].0, back.value))
  {
    hide Rebuilt;
    assert entries[..n + 1][..n] == entries[..n];
  }

  predicate DistinctKeys(entries: seq<(Bytes, Entry)>) {
    forall i, j :: 0 <= i < j < |entries| ==> entries[i].0 != entries[j].0
  }

  /** Where the first `n` entries come back, each key has what came back for it, and no other key is there. */
  lemma {:induction false} GatheredHas(entries: seq<(Bytes, Entry)>, clocks: seq<Millis>, now: Millis, n: nat, k: Bytes)
    requires DistinctKeys(entries) && n <= |entries| <= |clocks|
    requires Gathered(entries[..n], clocks, now).Some?
    ensures var m := Gathered(entries[..n], clocks, now).value;
      && NoneExpired(m, now)
      && ((forall i :: 0 <= i < n ==> entries[i].0 != k) ==> k !in m)
      && (forall i :: 0 <= i < n && entries[i].0 == k ==>
            Rebuilt(entries[i].0, entries[i].1, clocks[i], now) == Some(Lookup(m, k)))
  {
    hide Expired, InOneSet, Codec.ReadDeadline;
    if n > 0 {
      GatheredStep(entries, clocks, now, n - 1);
      GatheredHas(entries, clocks, now, n - 1, k);
      assert entries[n - 1] in entries;
    } else {
      assert entries[..0] == [];
    }
  }

  ghost predicate AllFit(entries: seq<(Bytes, Entry)>, clocks: seq<Millis>, now: Millis) {
    && |entries| <= |clocks|
    && forall i :: 0 <= i < |entries| ==> Sizes.ValueFits(entries[i].1.value) && clocks[i] <= now
  }

  ghost predicate AllDeadlinesComeBack(entries: seq<(Bytes, Entry)>, clocks: seq<Millis>, now: Millis) {
    && |entries| <= |clocks|
    && forall i :: 0 <= i < |entries| ==> DeadlineComesBack(entries[i].0, entries[i].1, clocks[i], now)
  }

  lemma {:induction false} AllGathered(entries: seq<(Bytes, Entry)>, clocks: seq<Millis>, now: Millis, n: nat)
    requires n <= |entries| && AllFit(entries, clocks, now) && AllDeadlinesComeBack(entries, clocks, now)
    ensures Gathered(entries[..n], clocks, now).Some?
  {
    hide Rebuilt, DeadlineComesBack, Sizes.ValueFits;
    if n > 0 {
      AllGathered(entries, clocks, now, n - 1);
      GatheredStep(entries, clocks, now, n - 1);
      RebuiltExactly(entries[n - 1].0, entries[n - 1].1, clocks[n - 1], now);
    } else {
      assert entries[..0] == [];
    }
  }

  /** What comes back is the live view exactly if every deadline does. */
  lemma GatheredIsLive(entries: seq<(Bytes, Entry)>, clocks: seq<Millis>, view: Keyspace, now: Millis)
    requires Holds(entries, view) && AllFit(entries, clocks, now)
    ensures Gathered(entries, clocks, now) == Some(Live(view, now)) <==> AllDeadlinesComeBack(entries, clocks, now)
  {
    hide Gathered, Rebuilt, DeadlineComesBack, Sizes.ValueFits, InKeyOrder;
    assert entries[..|entries|] == entries;
    if Gathered(entries, clocks, now) == Some(Live(view, now)) {
      forall i | 0 <= i < |entries|
        ensures DeadlineComesBack(entries[i].0, entries[i].1, clocks[i], now)
      {
        GatheredHas(entries, clocks, now, |entries|, entries[i].0);
        RebuiltExactly(entries[i].0, entries[i].1, clocks[i], now);
      }
    }
    if AllDeadlinesComeBack(entries, clocks, now) {
      AllGathered(entries, clocks, now, |entries|);
      var m := Gathered(entries, clocks, now).value;
      forall k
        ensures Lookup(m, k) == Lookup(Live(view, now), k)
      {
        GatheredHas(entries, clocks, now, |entries|, k);
        if i :| 0 <= i < |entries| && entries[i].0 == k {
          RebuiltExactly(k, entries[i].1, clocks[i], now);
        }
      }
      SameLookups(m, Live(view, now));
    }
  }

  /** Replaying what the snapshot wrote so far gives what comes back of what it has seen so far. */
  lemma {:induction false} PiecesReplay(pieces: seq<seq<Frame>>, entries: seq<(Bytes, Entry)>, clocks: seq<Millis>, now: Millis)
    requires AreSnapshotFrames(pieces, entries, clocks) && AllFit(entries, clocks, now) && DistinctKeys(entries)
    ensures Replayed(Flatten(pieces), map[], now) == Gathered(entries[..|pieces|], clocks, now)
    decreases |pieces|
  {
    hide Applies, After, EntryFrames, Rebuilt, Sizes.ValueFits;
    if pieces == [] {
      assert entries[..0] == [];
    } else {
      var n := |pieces| - 1;
      var init := pieces[..n];
      PiecesReplay(init, entries, clocks, now);
      assert pieces == init + [pieces[n]];
      FlattenSnoc(init, pieces[n]);
      ReplayedAppend(Flatten(init), pieces[n], map[], now);
      GatheredStep(entries, clocks, now, n);
      var m := Gathered(entries[..n], clocks, now);
      if m.Some? {
        GatheredHas(entries, clocks, now, n, entries[n].0);
        EntryReplays(pieces[n], entries[n].0, entries[n].1, clocks[n], m.value, now);
      }
    }
  }

  /** A complete snapshot of a keyspace replays to the live view of that keyspace, if and only if every
      deadline comes back. */
  lemma SnapshotRebuilds(pieces: seq<seq<Frame>>, entries: seq<(Bytes, Entry)>, clocks: seq<Millis>, view: Keyspace, now: Millis)
    requires |pieces| == |entries| && AreSnapshotFrames(pieces, entries, clocks) && AllFit(entries, clocks, now)
    requires Holds(entries, view)
    ensures Replayed(Flatten(pieces), map[], now) == Some(Live(view, now)) <==> AllDeadlinesComeBack(entries, clocks, now)
  {
    hide Replayed, Gathered, EntryFrames, AllFit, AllDeadlinesComeBack, InKeyOrder, Live;
    PiecesReplay(pieces, entries, clocks, now);
    GatheredIsLive(entries, clocks, view, now);
    assert entries[..|pieces|] == entries;
  }

  // ---- the whole snapshot as bytes ----

  /** Every frame of a snapshot is a request of at most 64 MiB. */
  ghost predicate Emitted(f: Frame) {
    Replayable(f) && exists parts :: f == Request(parts)
  }

  ghost predicate AllEmitted(fs: seq<Frame>) {
    forall i :: 0 <= i < |fs| ==> Emitted(fs[i])
  }

  lemma RequestEmitted(parts: seq<Bytes>)
    requires Replayable(Request(parts))
    ensures Emitted(Request(parts))
  {
    hide Replayable;
  }

  lemma ChunkEmitted(name: Bytes, key: Bytes, chunk: seq<Unit>)
    requires ChunkFits(name, key, chunk)
    ensures Emitted(CommandFrame(name, key, chunk))
  {
    hide Replayable, Flatten;
    RequestEmitted([name, key] + Flatten(chunk));
  }

  lemma ExpiryEmitted(key: Bytes, expiresAt: Option<Millis>, clock: Millis)
    ensures ExpiryFrames(key, expiresAt, clock).Some? ==> AllEmitted(ExpiryFrames(key, expiresAt, clock).value)
  {
    hide Replayable;
    if expiresAt.Some? && ExpiryFrames(key, expiresAt, clock).Some? {
      var d := expiresAt.value;
      RequestEmitted(if d <= MAX_EXPIRE_AT_MS then ["PEXPIREAT", key, Dec(d)] else ["PEXPIRE", key, Dec(RelativeMillis(d, clock))]);
    }
  }

  lemma AllEmittedAppend(a: seq<Frame>, b: seq<Frame>)
    requires AllEmitted(a) && AllEmitted(b)
    ensures AllEmitted(a + b)
  {
    hide Emitted;
  }

  lemma CollectionEmitted(name: Bytes, key: Bytes, units: seq<Unit>, expiresAt: Option<Millis>, clock: Millis)
    ensures var fs := CollectionFrames(name, key, units, expiresAt, clock); fs.Some? ==> AllEmitted(fs.value)
  {
    hide Chunks, ChunkFits, CommandFrame, Emitted, ExpiryFrames;
    ChunksFit(name, key, units, []);
    ExpiryEmitted(key, expiresAt, clock);
    var chunks := Chunks(name, key, units, []);
    if chunks.Some? && ExpiryFrames(key, expiresAt, clock).Some? {
      forall i | 0 <= i < |chunks.value|
        ensures Emitted(Commanded(name, key, chunks.value)[i])
      {
        ChunkEmitted(name, key, chunks.value[i]);
      }
      AllEmittedAppend(Commanded(name, key, chunks.value), ExpiryFrames(key, expiresAt, clock).value);
    }
  }

  lemma {:induction false} GreatestPayloadFits(baseLen: nat, from: nat)
    ensures var n := GreatestPayload(baseLen, from); n.Some? ==> baseLen + BulkLen(n.value) <= MAX_AOF_BUFFERED_FRAME_BYTES
  {
    if baseLen + BulkLen(from) > MAX_AOF_BUFFERED_FRAME_BYTES && from > 0 {
      GreatestPayloadFits(baseLen, from - 1);
    }
  }

  lemma AppendsEmitted(key: Bytes, value: Bytes, n: nat)
    requires n > 0 || value == []
    requires AppendBase(key) + BulkLen(n) <= MAX_AOF_BUFFERED_FRAME_BYTES
    ensures AllEmitted(Appended(key, AllSlices(value, n)))
  {
    hide Replayable, BulkLen, AppendBase, Emitted, Slices;
    var slices := AllSlices(value, n);
    if value != [] {
      SlicesLoseNothing(value, n);
    }
    forall i | 0 <= i < |slices|
      ensures Emitted(Appended(key, slices)[i])
    {
      AppendFits(key, slices[i], n);
      RequestEmitted(["APPEND", key, slices[i]]);
    }
  }

  lemma StringEmitted(key: Bytes, value: Bytes, expiresAt: Option<Millis>, clock: Millis)
    ensures var fs := StringFrames(key, value, expiresAt, clock); fs.Some? ==> AllEmitted(fs.value)
  {
    hide Replayable, ExpiryFrames, GreatestPayload, AppendBase, BulkLen, Emitted, AllSlices;
    if Replayable(SetFrame(key, value, expiresAt, clock)) {
      RequestEmitted(["SET", key, value] + SetExpiry(expiresAt, clock));
    } else if StringFrames(key, value, expiresAt, clock).Some? {
      RequestEmitted(["SET", key, []] + SetExpiry(None, clock));
      var n := GreatestPayload(AppendBase(key), MAX_AOF_BUFFERED_FRAME_BYTES).value;
      GreatestPayloadFits(AppendBase(key), MAX_AOF_BUFFERED_FRAME_BYTES);
      AppendsEmitted(key, value, n);
      ExpiryEmitted(key, expiresAt, clock);
      AllEmittedAppend([SetFrame(key, [], None, clock)], Appended(key, AllSlices(value, n)));
      AllEmittedAppend([SetFrame(key, [], None, clock)] + Appended(key, AllSlices(value, n)), ExpiryFrames(key, expiresAt, clock).value);
    }
  }

  lemma EntryEmitted(fs: seq<Frame>, key: Bytes, entry: Entry, clock: Millis)
    requires EntryFrames(key, entry, clock) == Some(fs)
    ensures AllEmitted(fs)
  {
    hide StringFrames, CollectionFrames, Emitted, Listed;
    if fs != [] && !Expired(entry, clock) {
      match entry.value
      case Str(value) => StringEmitted(key, value, entry.expiresAt, clock);
      case List(items) => CollectionEmitted("RPUSH", key, Singles(items), entry.expiresAt, clock);
      case Hash(fields) => CollectionEmitted("HSET", key, PairUnits(Listed(fields)), entry.expiresAt, clock);
    }
  }

  lemma {:induction false} SnapshotEmitted(pieces: seq<seq<Frame>>, entries: seq<(Bytes, Entry)>, clocks: seq<Millis>)
    requires AreSnapshotFrames(pieces, entries, clocks)
    ensures AllEmitted(Flatten(pieces))
    decreases |pieces|
  {
    hide EntryFrames, Emitted;
    if pieces != [] {
      var n := |pieces| - 1;
      SnapshotEmitted(pieces[..n], entries, clocks);
      EntryEmitted(pieces[n], entries[n].0, entries[n].1, clocks[n]);
      assert pieces == pieces[..n] + [pieces[n]];
      FlattenSnoc(pieces[..n], pieces[n]);
      AllEmittedAppend(Flatten(pieces[..n]), pieces[n]);
    }
  }

  function ItemCount(f: Frame): nat {
    if f.Array? then |f.items| else 0
  }

  lemma EmittedWire(f: Frame)
    requires Emitted(f)
    ensures IsRequest(f) && (Wire(f) <==> ItemCount(f) <= MAX_ARRAY_LEN)
  {
    hide Wire, Encode;
    var parts :| f == Request(parts);
    RequestIsWire(parts);
  }

  /** Frames of at most 64 MiB parse back, all of them, exactly if none has more than 1048576 items. */
  lemma EmittedDrain(frames: seq<Frame>)
    requires AllEmitted(frames)
    ensures Drain(EncodeAll(frames), true).failure.None? <==> AllWire(frames)
    ensures AllWire(frames) ==> Drain(EncodeAll(frames), true) == Drained(frames, [], None)
    ensures AllWire(frames) <==> forall i :: 0 <= i < |frames| ==> ItemCount(frames[i]) <= MAX_ARRAY_LEN
  {
    hide Wire, Emitted, IsRequest, Encode, EncodeAll, Drain, ItemCount;
    forall i | 0 <= i < |frames|
      ensures IsRequest(frames[i]) && (Wire(frames[i]) <==> ItemCount(frames[i]) <= MAX_ARRAY_LEN)
    {
      EmittedWire(frames[i]);
    }
    RequestsDrain(frames);
    assert frames[..|frames|] == frames;
  }

  // ---- how many items a frame gets ----

  /** The replay accepts 1048576 items a frame, two of which are the command and the key; the chunks are
      cut by bytes alone. */
  predicate ChunksCountFit(name: Bytes, key: Bytes, units: seq<Unit>) {
    var chunks := Chunks(name, key, units, []);
    chunks.Some? ==> forall i :: 0 <= i < |chunks.value| ==> |Flatten(chunks.value[i])| <= MAX_ARRAY_LEN - 2
  }

  /** Each chunk of a live list or hash has few enough parts. */
  ghost predicate CountsFit(key: Bytes, entry: Entry, clock: Millis) {
    Expired(entry, clock) ||
    match entry.value
    case Str(_) => true
    case List(items) => ChunksCountFit("RPUSH", key, Singles(items))
    case Hash(fields) => ChunksCountFit("HSET", key, PairUnits(Listed(fields)))
  }

  ghost predicate FewItems(fs: seq<Frame>) {
    forall i :: 0 <= i < |fs| ==> ItemCount(fs[i]) <= MAX_ARRAY_LEN
  }

  lemma FewItemsAppend(a: seq<Frame>, b: seq<Frame>)
    ensures FewItems(a + b) <==> FewItems(a) && FewItems(b)
  {
    hide ItemCount;
    if FewItems(a + b) {
      assert forall i :: 0 <= i < |a| ==> a[i] == (a + b)[i];
      assert forall i :: 0 <= i < |b| ==> b[i] == (a + b)[|a| + i];
    }
  }

  lemma ExpiryFewItems(key: Bytes, expiresAt: Option<Millis>, clock: Millis)
    ensures ExpiryFrames(key, expiresAt, clock).Some? ==> FewItems(ExpiryFrames(key, expiresAt, clock).value)
  {
    hide Replayable, Dec;
  }

  lemma CollectionFewItems(name: Bytes, key: Bytes, units: seq<Unit>, expiresAt: Option<Millis>, clock: Millis)
    ensures var fs := CollectionFrames(name, key, units, expiresAt, clock);
      fs.Some? ==> (FewItems(fs.value) <==> ChunksCountFit(name, key, units))
  {
    hide Chunks, ExpiryFrames, Flatten;
    var chunks, expiry := Chunks(name, key, units, []), ExpiryFrames(key, expiresAt, clock);
    if chunks.Some? && expiry.Some? {
      ExpiryFewItems(key, expiresAt, clock);
      var commanded := Commanded(name, key, chunks.value);
      FewItemsAppend(commanded, expiry.value);
      assert forall i :: 0 <= i < |commanded| ==> ItemCount(commanded[i]) == |Flatten(chunks.value[i])| + 2;
    }
  }

  lemma StringFewItems(key: Bytes, value: Bytes, expiresAt: Option<Millis>, clock: Millis)
    ensures var fs := StringFrames(key, value, expiresAt, clock); fs.Some? ==> FewItems(fs.value)
  {
    hide Replayable, ExpiryFrames, GreatestPayload, AppendBase, AllSlices, Dec;
    if !Replayable(SetFrame(key, value, expiresAt, clock)) && StringFrames(key, value, expiresAt, clock).Some? {
      var n := GreatestPayload(AppendBase(key), MAX_AOF_BUFFERED_FRAME_BYTES).value;
      var expiry := ExpiryFrames(key, expiresAt, clock).value;
      ExpiryFewItems(key, expiresAt, clock);
      FewItemsAppend([SetFrame(key, [], None, clock)], Appended(key, AllSlices(value, n)));
      FewItemsAppend([SetFrame(key, [], None, clock)] + Appended(key, AllSlices(value, n)), expiry);
    }
  }

  lemma EntryFewItems(fs: seq<Frame>, key: Bytes, entry: Entry, clock: Millis)
    requires EntryFrames(key, entry, clock) == Some(fs) && Sizes.ValueFits(entry.value)
    ensures FewItems(fs) <==> CountsFit(key, entry, clock)
  {
    hide StringFrames, CollectionFrames, Listed, ChunksCountFit, BulkResponseFits;
    if !Expired(entry, clock) {
      match entry.value
      case Str(value) => StringFewItems(key, value, entry.expiresAt, clock);
      case List(items) => CollectionFewItems("RPUSH", key, Singles(items), entry.expiresAt, clock);
      case Hash(fields) => CollectionFewItems("HSET", key, PairUnits(Listed(fields)), entry.expiresAt, clock);
    }
  }

  ghost predicate AllCountsFit(entries: seq<(Bytes, Entry)>, clocks: seq<Millis>) {
    && |entries| <= |clocks|
    && forall i :: 0 <= i < |entries| ==> CountsFit(entries[i].0, entries[i].1, clocks[i])
  }

  lemma {:induction false} SnapshotFewItems(pieces: seq<seq<Frame>>, entries: seq<(Bytes, Entry)>, clocks: seq<Millis>, n: nat)
    requires AreSnapshotFrames(pieces, entries, clocks) && n <= |pieces|
    requires forall i :: 0 <= i < |entries| ==> Sizes.ValueFits(entries[i].1.value)
    ensures FewItems(Flatten(pieces[..n])) <==> forall i :: 0 <= i < n ==> CountsFit(entries[i].0, entries[i].1, clocks[i])
    decreases n
  {
    hide EntryFrames, CountsFit, ItemCount, Sizes.ValueFits;
    if n == 0 {
      assert pieces[..0] == [];
    } else {
      SnapshotFewItems(pieces, entries, clocks, n - 1);
      EntryFewItems(pieces[n - 1], entries[n - 1].0, entries[n - 1].1, clocks[n - 1]);
      assert pieces[..n] == pieces[..n - 1] + [pieces[n - 1]];
      FlattenSnoc(pieces[..n - 1], pieces[n - 1]);
      FewItemsAppend(Flatten(pieces[..n - 1]), pieces[n - 1]);
    }
  }

  /** The temporary file reloads as the live view, all of it, if and only if every deadline comes back
      and every chunk of every live list and hash has at most 1048574 parts. */
  lemma SnapshotReloads(pieces: seq<seq<Frame>>, entries: seq<(Bytes, Entry)>, clocks: seq<Millis>, view: Keyspace, now: Millis)
    requires |pieces| == |entries| && AreSnapshotFrames(pieces, entries, clocks) && AllFit(entries, clocks, now)
    requires Holds(entries, view)
    ensures var frames := Flatten(pieces);
      Load(EncodeAll(frames), map[], now) == Loaded(Live(view, now), |frames|, [])
      <==> AllDeadlinesComeBack(entries, clocks, now) && AllCountsFit(entries, clocks)
    ensures AllWire(Flatten(pieces)) <==> AllCountsFit(entries, clocks)
  {
    hide Load, Replayed, EntryFrames, DeadlineComesBack, CountsFit, Wire, Emitted, Encode, EncodeAll, Drain, InKeyOrder,
         Sizes.ValueFits, Live, Flatten, ItemCount;
    var frames := Flatten(pieces);
    SnapshotRebuilds(pieces, entries, clocks, view, now);
    SnapshotEmitted(pieces, entries, clocks);
    EmittedDrain(frames);
    SnapshotFewItems(pieces, entries, clocks, |pieces|);
    assert pieces[..|pieces|] == pieces;
    if AllWire(frames) && AllDeadlinesComeBack(entries, clocks, now) {
      LoadWhole(frames, map[], now);
    }
    if Load(EncodeAll(frames), map[], now) == Loaded(Live(view, now), |frames|, []) {
      WholeIsFrames(EncodeAll(frames), map[], now);
    }
  }

  lemma {:induction false} PartOfFlatten(chunks: seq<seq<Unit>>, i: nat)
    requires i < |chunks|
    ensures |Flatten(chunks[i])| <= |Flatten(Flatten(chunks))|
    decreases i
  {
    FlattenAppend(chunks[0], Flatten(chunks[1..]));
    if i > 0 {
      assert chunks[1..][i - 1] == chunks[i];
      PartOfFlatten(chunks[1..], i - 1);
    }
  }

  lemma ShortChunksFit(name: Bytes, key: Bytes, units: seq<Unit>)
    requires |Flatten(units)| <= MAX_ARRAY_LEN - 2
    ensures ChunksCountFit(name, key, units)
  {
    hide Chunks, Flatten;
    ChunksLoseNothing(name, key, units, []);
    assert [] + units == units;
    var chunks := Chunks(name, key, units, []);
    if chunks.Some? {
      forall i | 0 <= i < |chunks.value|
        ensures |Flatten(chunks.value[i])| <= MAX_ARRAY_LEN - 2
      {
        PartOfFlatten(chunks.value, i);
      }
    }
  }

  lemma {:induction false} ListsLen<V>(pairs: seq<(Bytes, V)>, m: map<Bytes, V>)
    requires Lists(pairs, m) && InKeyOrder(pairs)
    ensures |pairs| == |m|
  {
    hide Less, InKeyOrder;
    if pairs != [] {
      RestLists(pairs, m);
      ListsLen(pairs[1..], m - {pairs[0].0});
      assert (m - {pairs[0].0}).Keys == m.Keys - {pairs[0].0};
    } else {
      assert m.Keys == {};
    }
  }

  /** Lists of at most 1048574 elements and hashes of at most 524287 fields always fit. */
  lemma ShortCountsFit(key: Bytes, entry: Entry, clock: Millis)
    requires entry.value.List? ==> |entry.value.items| <= MAX_ARRAY_LEN - 2
    requires entry.value.Hash? ==> |entry.value.fields| <= MAX_ARRAY_LEN / 2 - 1
    ensures CountsFit(key, entry, clock)
  {
    hide ChunksCountFit, Listed, Lists, InKeyOrder, Flatten, Unpair;
    match entry.value
    case Str(_) =>
    case List(items) =>
      SinglesFlatten(items);
      ShortChunksFit("RPUSH", key, Singles(items));
    case Hash(fields) =>
      var pairs := Listed(fields);
      ListsLen(pairs, fields);
      PairUnitsFlatten(pairs);
      ShortChunksFit("HSET", key, PairUnits(pairs));
  }

  // ---- chunking against one frame per value ----

  /** `aof_snapshot_frames`: each value in one frame, whatever its size. */
  ghost function UnchunkedFrames(key: Bytes, entry: Entry, clock: Millis): seq<Frame> {
    match entry.value
    case Str(value) => [SetFrame(key, value, entry.expiresAt, clock)]
    case List(items) =>
      if items == [] then [] else [CommandFrame("RPUSH", key, Singles(items))] + PlainExpiry(key, entry.expiresAt)
    case Hash(fields) =>
      if fields == map[] then []
      else [CommandFrame("HSET", key, PairUnits(Listed(fields)))] + PlainExpiry(key, entry.expiresAt)
  }

  function PlainExpiry(key: Bytes, expiresAt: Option<Millis>): seq<Frame> {
    if expiresAt.Some? then [Request(["PEXPIREAT", key, Dec(expiresAt.value)])] else []
  }

  lemma {:induction false} OneChunk(name: Bytes, key: Bytes, units: seq<Unit>, current: seq<Unit>)
    requires current + units != [] && ChunkFits(name, key, current + units)
    ensures Chunks(name, key, units, current) == Some([current + units])
    decreases |units|
  {
    hide ChunkFits;
    if units == [] {
      assert current + units == current;
    } else {
      var next := current + [units[0]];
      assert current + units == next + units[1..];
      PrefixFits(name, key, next, units[1..]);
      OneChunk(name, key, units[1..], next);
    }
  }

  lemma PrefixFits(name: Bytes, key: Bytes, a: seq<Unit>, b: seq<Unit>)
    requires ChunkFits(name, key, a + b)
    ensures ChunkFits(name, key, a)
  {
    hide Encode, BulksLen, Flatten;
    FlattenAppend(a, b);
    RequestLen(name, key, Flatten(a) + Flatten(b));
    RequestLen(name, key, Flatten(a));
    BulksLenAppend(Flatten(a), Flatten(b));
    DecLenMonotone(|Flatten(a)| + 2, |Flatten(a) + Flatten(b)| + 2);
  }

  /** Where each value fits one frame, chunking changes nothing. */
  lemma ChunkingSparesWhatFits(key: Bytes, entry: Entry, clock: Millis)
    requires !Expired(entry, clock) && (!entry.value.Str? && entry.expiresAt.Some? ==> entry.expiresAt.value <= MAX_EXPIRE_AT_MS)
    requires forall i :: 0 <= i < |UnchunkedFrames(key, entry, clock)| ==> Replayable(UnchunkedFrames(key, entry, clock)[i])
    ensures EntryFrames(key, entry, clock) == Some(UnchunkedFrames(key, entry, clock))
  {
    hide Replayable, SetFrame, CommandFrame, Flatten, Listed;
    var fs := UnchunkedFrames(key, entry, clock);
    match entry.value
    case Str(value) => assert Replayable(fs[0]);
    case List(items) =>
      if items != [] {
        CollectionSpared("RPUSH", key, Singles(items), entry.expiresAt, clock, fs);
      }
    case Hash(fields) =>
      if fields != map[] {
        CollectionSpared("HSET", key, PairUnits(Listed(fields)), entry.expiresAt, clock, fs);
      }
  }

  lemma CollectionSpared(name: Bytes, key: Bytes, units: seq<Unit>, expiresAt: Option<Millis>, clock: Millis, fs: seq<Frame>)
    requires units != [] && (expiresAt.Some? ==> expiresAt.value <= MAX_EXPIRE_AT_MS)
    requires fs == [CommandFrame(name, key, units)] + PlainExpiry(key, expiresAt)
    requires forall i :: 0 <= i < |fs| ==> Replayable(fs[i])
    ensures CollectionFrames(name, key, units, expiresAt, clock) == Some(fs)
  {
    hide Replayable, CommandFrame, Chunks;
    assert Replayable(fs[0]) && [] + units == units;
    OneChunk(name, key, units, []);
    assert Commanded(name, key, [units]) == [CommandFrame(name, key, units)];
    if expiresAt.Some? {
      assert Replayable(fs[1]);
    }
  }

  // ---- the limit on the number of items ----

  function Empties(n: nat): (items: seq<Bytes>)
    ensures |items| == n
  {
    seq(n, _ => [])
  }

  lemma {:induction false} EmptiesLen(n: nat)
    ensures BulksLen(Empties(n)) == 6 * n
  {
    if n > 0 {
      assert Empties(n)[..n - 1] == Empties(n - 1);
      EmptiesLen(n - 1);
    }
  }

  /** A list of 1048575 or more empty strings is written as one frame that no replay accepts. */
  lemma LongListIsLost(key: Bytes, n: nat, now: Millis)
    requires n > MAX_ARRAY_LEN - 2 && 6 * n + |key| + 100 <= MAX_AOF_BUFFERED_FRAME_BYTES
    ensures var fs := CollectionFrames("RPUSH", key, Singles(Empties(n)), None, now);
      && fs == Some([CommandFrame("RPUSH", key, Singles(Empties(n)))])
      && Load(EncodeAll(fs.value), map[], now) == Loaded(map[], 0, SkipBlanks(EncodeAll(fs.value)))
  {
    hide Encode, Load, BulksLen, Flatten, Chunks, Parse, Applies;
    var units := Singles(Empties(n));
    SinglesFlatten(Empties(n));
    EmptiesLen(n);
    RequestLen("RPUSH", key, Empties(n));
    DecLenUsize(n + 2);
    DecLenUsize(|key|);
    assert [] + units == units;
    OneChunk("RPUSH", key, units, []);
    var f := CommandFrame("RPUSH", key, units);
    assert Commanded("RPUSH", key, [units]) + [] == [f];
    ChunkEmitted("RPUSH", key, units);
    EmittedWire(f);
    assert [f][1..] == [];
    RequestParses(f, EncodeAll([]));
    StopsUnchanged(Encode(f) + EncodeAll([]), map[], now);
  }
}
