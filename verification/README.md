# mini-redis-rs: a verified model of its persistence

The project models a small Redis server: its RESP2 printer and streaming parser, its commands on a
sharded store with deadlines, and above all its append-only file (AOF), which must agree with memory
through appends, failures, crashes, replay and a rewrite that runs while clients write.

`dafny verify dfyconfig.toml` checks everything.

## How it is built

| layer | files |
|---|---|
| bytes, decimals, lengths | `Base`, `Utf8`, `Utf8Grammar`, `Frames` (with `Limits`) |
| wire format | `Parser` (the parser as functions of the buffer), `ParserLoops` (the same as cursor and loops), `Streaming`, `Blanks`, `Reads` (when the reads matter), `Connection` (module `ClientConnection`), `RoundTrip`, `RespGrammar` and `InlineGrammar` (exactly what is read), `Progress`, `InlineRoundTrip` |
| commands | `Commands` (decoding, log form), `Codec`, `Requests` (lengths of requests and log forms), `Decoding` (exactly which requests are which commands) |
| meaning | `Semantics` (one plain map with deadlines), `Ordering` (sorting by key), `Laws`, `Conservation`, `Queues`, `Sizes`; what the replies say about each other: `Reading`, `Counters`, `ListReads`, `HashReads`, `Lifetimes`, `ManyKeys`, `Replies`; and `Writes` (which commands are logged) |
| store | `TtlIndex`, `Shard` (module `Shards`), `Db` (module `Database`), `Expiry`, `Listings` |
| log | `Replay`, `ReplayReads`, `LogRuns`, `Recovery` (the replay loop) |
| snapshot | `Chunking`, `SnapshotFile` (the writing loops), `Rebuild`, `SnapshotSize` |
| protocol | `AofDisk`, `AofWriter` (the writer task), `AofMachine` (the step machine), `AofInvariant`, `AofSafety`, `AofCrashes`, `AofGuarantees`, `AofRewrites`, `Server` |

The yardstick everywhere is the live view: one map from keys to values with deadlines, in which expired
keys are absent. The store, the log, the snapshot and the crash images are all compared with it.

The clock is an argument of every operation, one reading per command, and never goes back. Statements
about a later replay name a last clock reading, `T`, and hold for a replay at every reading up to it.
Deadlines may pass in between; only, no write may need a key that expires between the write and `T`
(`Laws.Reaches`: its key holds no such deadline, or the write overwrites it, takes away from it or brings the
deadline forward). For one write this is exactly what it needs to be replayed at every reading up to `T`
(`Laws.WriteReplaysIff`), for a run it is exactly what its log needs (`LogRuns.LogRefinesRunIff`).
`Laws.ReplaysAlikeIff` is the coarser statement for all continuations of a write at once.

Files are byte sequences with a durable prefix; every file operation may fail. A power loss keeps the durable
bytes and any prefix of the rest; a killed process keeps everything, durable or not. A rename is atomic, and
durable once the directory is synced; until then a power loss may undo it.

## Main results

* Over every run, that is every interleaving of clients, sweeper, writer and rewrites, with any failures that
  leave the size counter right and any number of power losses, killed processes and restarts, the log replays at
  any reading to exactly what is live in memory then (`AofGuarantees.LogIsMemory`).
* A power loss at any point, also between two file operations, leaves a file that replays to all acknowledged
  writes and the first few of the unacknowledged ones (`AofGuarantees.CrashBetweenSteps`,
  `AofGuarantees.CrashInsideAStep`): at most one for each restart since the last acknowledgement, and one more
  (`AofGuarantees.UnackedAreFew`). What the start-up's own replay, at its own reading, makes of that file, or of
  the files of a killed process, is a start state of the same run (`AofGuarantees.RestartStarts`,
  `Server.StartUp`); a killed process loses nothing of the log, as long as no cut of it waits for its sync
  (`AofGuarantees.KilledProcessLosesNothing`). What counts as acknowledged is the fold of the writes in the log at
  each acknowledgement
  (`AofGuarantees.AckedIsTheFold`).
* Rewrites exclude each other (`AofGuarantees.RewritesExclude`, `AofGuarantees.RewritesAreServed`). A rewrite takes
  effect exactly if what is written meanwhile takes at most 64 MiB and nothing fails up to the rename
  (`AofRewrites.BufferLivesUpToItsLimit`, `AofRewrites.RewriteTakesEffect`), and from every quiet state one can go
  through (`AofRewrites.RewriteGoesThrough`).
* A snapshot, cut into frames of at most 64 MiB, reloads as the live view if and only if every deadline
  comes back and every chunk of a list or hash has at most 1048574 parts (`Rebuild.SnapshotReloads`,
  `Rebuild.EntryRebuilds`); lists of at most 1048574 elements and hashes of at most 524287 fields always do
  (`Rebuild.ShortCountsFit`).
* The replay loop keeps exactly the leading frames that parse, decode and apply, and a second replay
  changes nothing (`Recovery.ReplayFile`, `LogRuns.LongestGoodPrefix`).
* The log of a run of writes replays to the state of the run, at every reading, if and only if no write needs a
  key that expires before the replay (`LogRuns.LogRefinesRunIff`), and a restart keeps the whole file if and only if
  no log frame outgrows the parser (`LogRuns.RestartKeepsEverything`, `LogRuns.LogReloads`), also when the clock
  moves on during the replay (`LogRuns.RestartWhileTheClockRuns`); a request that
  came in 22 bytes below 64 MiB has no such frame (`Requests.ShortRequestsAreLoggable`).
* The sharded store with lazy and active expiry answers like one plain map (`Expiry.RunsLikeThePlainMap`).
* The parser inverts the printer (`RoundTrip.ParseEncoded`, `RoundTrip.ParsePrefix`), and what it and the replay
  yield does not depend on how the bytes arrive, exactly if a limit on every line changes nothing
  (`Reads.ReadsDoNotMatterIff`, `ReplayReads.ReplayIgnoresReadsIff`); for a connection, exactly if the stream
  also is at most 64 MiB long (`ClientConnection.ReceiveIgnoresReadsIff`).
* The parser reads exactly the languages of RESP frames and of inline commands (`RespGrammar.GotIffSpelled`,
  `InlineGrammar.SplitsIffSpelled`) and never waits in vain (`Progress.NoDeadEnd`); a request is decoded to a command
  exactly if it spells it (`Decoding.DecodedIffSpelled`, `Decoding.SetWithExpiry`, `Decoding.ExpiryRequests`).
* What every command leaves is what the others read, over runs in which others leave the key alone, in terms of
  replies alone: counting (`Counters.NumbersAddUp`, `Counters.FieldsAddUp`), lists (`ListReads.PushedIsRead`,
  `ListReads.PopsAsMany`), hashes (`HashReads.HSetReadsBack`, `HashReads.ListingsWalk`), deadlines
  (`Lifetimes.ExpireReadsBack`) and commands on many keys (`ManyKeys`).
* A list pushed at one end and popped at the other hands out first what came first, over any run with
  anything else going on (`Queues.ListIsAQueue`).

## Where the code does less than it says

* The program's documentation says a rewritten log stays within the replay limits. It does for bytes,
  not for items: `Rebuild.LongListIsLost`. Exactly the snapshots with a chunk of more than 1048574 parts are
  lost: `Rebuild.SnapshotReloads`.
* An acknowledged write is meant to survive a restart. A write whose log form outgrows 64 MiB does not, and takes all
  writes behind it with it: the log form spells a deadline out in full, so `SET "" v PX 1` with 67108817 bytes of
  `v` is received at exactly 64 MiB, answered OK, and logged 15 bytes too long
  (`LogRuns.OversizedWriteIsLost`). A log is cut at the first frame that is too long, and only there
  (`LogRuns.LogReloads`, `Requests.WireRequest`). A log form has at most 22 bytes more than its request, which an
  EXPIRE can reach (`Requests.LogGrowth`, `Requests.SharpGrowth`), so requests of at most 64 MiB less 22 bytes
  are never lost this way (`Requests.ShortRequestsAreLoggable`).
* The documentation says the compacted log is the active one even if a sync after the rename fails. It is
  until the next crash or failed append, exactly as far as this goes:
  * A later acknowledged append survives every crash if and only if the directory sync succeeded
    (`AofDisk.CrashAfterRename`); otherwise the old log may come back (`AofDisk.UnsyncedRenameLosesWrites`). That
    includes a process killed between the rename and the directory sync: nothing syncs the directory at start-up,
    so the next power loss may undo the rename together with what was acknowledged since
    (`AofGuarantees.KilledAtTheRename`).
  * A later failed append is taken back exactly if and only if the size counter was renewed, that is if the
    last sync and the metadata call succeeded, or the lengths agree by chance (`AofDisk.RollbackAfterRename`,
    `AofDisk.StaleSizeDamagesTheLog`).
  * When only the metadata call fails, the rewrite still reports success and counts a size of zero, so the next
    failed append empties the log (`AofDisk.MetadataFailureEmptiesTheLog`).
* A deadline beyond `i64::MAX` is written relative to the clock. It comes back if and only if the entry is a string
  that fits one SET and the relative form, read at the later clock, gives the same deadline:
  `Rebuild.EntryRebuilds`.
* A write that needs a key which expires before the log is replayed is replayed to something else:
  `Laws.CrossingADeadlineMatters`, and exactly then: `Laws.WriteReplaysIff`, `LogRuns.LogRefinesRunIff`.
* A header line of 1 MiB or more parses or fails depending on the reads: `RoundTrip.LongLineDependsOnReads`. The
  exact condition is in `Reads.ReadsDoNotMatterIff`, for a replay in `ReplayReads.ReplayIgnoresReadsIff`.
* An APPEND of a suffix that no reply can carry leaves an empty string although it reports an error; exactly
  this one case breaks "errors change nothing", and no received frame reaches it: `Laws.ErrorsChangeNothing`,
  `Sizes.ReceivedErrorsChangeNothing`.
* The documentation says reads share the write gate; the code lets them pass without it, and so does the model.

## Model

| member | source | states |
|---|---|---|
| `Base.ParseDecInt` | src/cmd/mod.rs:753-758 | Printing an integer and parsing it as i64 gives it back exactly when it is in range. |
| `Limits.RespBulkLen` | src/limits.rs:7-13 | The checked sum is the exact length of an encoded bulk string, or nothing when that exceeds 64 bits. |
| `Limits.RespArrayHeaderLen` | src/limits.rs:15-17 | The checked sum is the exact length of an array header, or nothing on overflow. |
| `Limits.BulkLenMonotone` | src/limits.rs:7-13 | Encoded bulk lengths grow with the payload, across digit boundaries too. |
| `Limits.CheckedAddResponseLen` | src/limits.rs:19-27 | The running total grows exactly while it stays within 64 MiB, and is kept otherwise. |
| `Frames.OutBuffer.PutFrame` | src/resp/encoder.rs:23-58 | Appending to the output buffer adds exactly the encoding of the frame. |
| `Frames.OutBuffer.PutItems` | src/resp/encoder.rs:49-56 | The loop over array items adds their encodings in order. |
| `Frames.EncodedLenExact` | src/resp/encoder.rs:5-21 | The measured length is the number of bytes the encoder writes, or nothing when that exceeds 64 bits. |
| `ParserLoops.Cursor.ReadLine` | src/resp/parser.rs:280-294 | The cursor finds the first CRLF and moves behind it; an open line over 1 MiB is an error. |
| `ParserLoops.Cursor.ReadLineString` | src/resp/parser.rs:296-301 | A line that is not UTF-8 is an error. |
| `ParserLoops.Cursor.ReadLineInt` | src/resp/parser.rs:303-309 | A line that is no i64 is an error. |
| `ParserLoops.Cursor.ParseBulk` | src/resp/parser.rs:208-239 | The cursor reads a bulk string as the parsing function says, with the same errors. |
| `ParserLoops.Cursor.ParseFrame` | src/resp/parser.rs:191-206 | The recursive cursor parser yields what the parsing function yields, at the same position. |
| `ParserLoops.Cursor.ParseArray` | src/resp/parser.rs:241-257 | The loop that collects items equals the recursive description. |
| `ParserLoops.ReadInlineQuoted` | src/resp/parser.rs:131-176 | The quote loop reads the argument its description reads, with the same escapes and errors. |
| `ParserLoops.SplitInlineArgs` | src/resp/parser.rs:88-129 | The splitting loop yields the arguments of the line, or an error for the same lines. |
| `ParserLoops.ReadBuffer.Parse` | src/resp/parser.rs:16-47 | One parse consumes exactly the frame, or the blank lines before it. |
| `Streaming.ParseFrameLocal` | src/resp/parser.rs:191-206 | A frame, an error or its absence on the first bytes says what the whole buffer yields there. |
| `Streaming.ParseExtend` | src/resp/parser.rs:16-47 | A frame parsed from a buffer is parsed the same from every extension, the extension added to the rest. |
| `Streaming.ParseInlineExtend` | src/resp/parser.rs:53-76 | A finished inline line parses the same whatever follows it. |
| `Streaming.DrainExtend` | src/resp/parser.rs:16-47 | Parsing a part first and then the rest yields the frames, the leftover and the error of the whole, unless an open line broke the limit in the part. |
| `Streaming.FeedIsDrain` | src/resp/parser.rs:16-47 | A reader that parses what it has and reads on, with no limit on what it buffers: however the stream is cut into reads, the frames, the leftover and the error are those of the whole stream, if a limit on every line changes nothing of them. |
| `Reads.FrameRefused` | src/resp/parser.rs:280-294 | Where only a limit on every line refuses a frame, the program refuses it too after some of its bytes. |
| `Reads.ReadsDoNotMatterIff` | src/resp/parser.rs:280-294 | That reader yields the result of the whole stream for every way to cut it into reads, if and only if a limit on every line changes nothing of it. |
| `ClientConnection.Connection.ReadFrame` | src/connection.rs:38-68 | Yields the next request of the stream or how the connection ends; a buffer over 64 MiB ends it before any parse. |
| `ClientConnection.ReceiveIsDrain` | src/connection.rs:38-68 | However its bytes arrive, a connection yields requests of the stream in order; unless it ends for buffering too much, it yields all and ends as the stream does, if a limit on every line changes nothing. |
| `ClientConnection.ReceiveIgnoresReadsIff` | src/connection.rs:38-68 | A connection yields the whole stream for every way its bytes can arrive, if and only if the stream is at most 64 MiB long and a limit on every line changes nothing of it. |
| `RoundTrip.ParseEncoded` | src/resp/parser.rs:191-257 | Parsing a printed frame followed by anything gives the frame and leaves the rest (within the depth, count and size limits). |
| `RoundTrip.ParsePrefix` | src/resp/parser.rs:16-47 | Every strict prefix of a printed frame yields no frame, no error, and stays in the buffer. |
| `RoundTrip.AnySplitYieldsTheFrames` | src/resp/parser.rs:16-47 | Any split of a stream of printed frames yields exactly those frames. |
| `RoundTrip.LongLineDependsOnReads` | src/resp/parser.rs:283-290 | A simple string of 1 MiB parses when it arrives whole and fails when a read ends inside it. |
| `RespGrammar.NumbersIff` | src/resp/parser.rs:303-309 | A line reads as a number exactly if it is the decimal text of an i64, perhaps with zeros in front and a sign that agrees. |
| `RespGrammar.ReadIffSpelled` | src/resp/parser.rs:191-257 | At any position and depth, the parser yields a frame and a position exactly if the bytes between spell that frame: type byte, number or UTF-8 text, CRLF, payload or items, within 128 levels, 1048576 items and 64 MiB. |
| `RespGrammar.GotIffSpelled` | src/resp/parser.rs:16-47 | A buffer that starts with a type byte yields a frame exactly if it starts with a spelling of it of at most 64 MiB; what follows stays. |
| `Progress.NoDeadEnd` | src/resp/parser.rs:16-47 | Whatever is in the buffer, some bytes that may follow make the parser yield a request or an error. |
| `Utf8Grammar.ValidIffEncoded` | src/resp/parser.rs:296-301 | Text is accepted as UTF-8 exactly if it is the encoding of some Unicode scalar values. |
| `InlineRoundTrip.InlineReadsBack` | src/resp/parser.rs:53-176 | Any arguments can be quoted on an inline line that parses to exactly those arguments and leaves what follows. |
| `InlineGrammar.HexDigits` | src/resp/parser.rs:178-185 | A character is a hexadecimal digit of a value exactly if it is the digit or the letter, in either case, that stands for it. |
| `InlineGrammar.SplitsIffSpelled` | src/resp/parser.rs:88-176 | A line splits into given arguments exactly if it is a way to write them: bare bytes, bytes behind a backslash, single and double quotes with their escapes, blanks between. |
| `InlineGrammar.InlineLinesAreRead` | src/resp/parser.rs:53-86 | An inline line is read as exactly the arguments it writes; a blank one is passed over; one that is over 1 MiB, or writes nothing, is refused. |
| `InlineGrammar.PlainArgumentsAreRead` | src/resp/parser.rs:88-129 | Plain arguments, with any spaces and tabs around them, are read as they stand, in their order. |
| `Commands.ParseSet` | src/cmd/mod.rs:579-637 | The option loop of SET accepts and rejects what the recursive description does, with the same deadline. |
| `Codec.FromFrameYieldsDecodable` | src/cmd/mod.rs:303-511 | Everything decoding can produce has arguments and deadlines within the stated bounds. |
| `Codec.LogDecodes` | src/cmd/mod.rs:113-223 | Decoding the log form of a write gives the write back, expiry commands in absolute form; with a deadline beyond i64 exactly when the clock stood still. |
| `Codec.SetReadsBack` | src/cmd/mod.rs:579-637 | A logged SET, decoded at any later reading, gives the deadline that comes back from its absolute or relative form, or is refused. |
| `Codec.PExpireReadsBack` | src/aof.rs:723-729 | The relative expiry frame decodes to the clock plus the relative time, or is refused beyond i64. |
| `Codec.SetDecodes` | src/cmd/mod.rs:721-729 | SET with its deadline decodes back if and only if the deadline is absolute or the clock has not moved. |
| `Codec.RelativeIsClosest` | src/cmd/mod.rs:731-735 | The relative form of a deadline, read at the same clock reading, gives that deadline, or the closest one that such a form can give. |
| `Codec.NamedRequestDecodes` | src/cmd/mod.rs:303-511 | A request whose name is that of a command in any case of letters is decoded as that command; so for every command of the table. |
| `Decoding.SetWithExpiry` | src/cmd/mod.rs:579-637 | SET with an option: EX sets the deadline the given seconds, PX the given milliseconds from now, EXAT and PXAT the given second and millisecond; each exactly within its bounds, and otherwise an expire-time error, as for numbers that are not positive; anything else is a syntax error or no number. |
| `Decoding.SetTakesOneExpiry` | src/cmd/mod.rs:584-628 | SET is decoded only without an option or with exactly one and its number. |
| `Decoding.ExpiryRequests` | src/cmd/mod.rs:639-663 | EXPIRE, PEXPIRE, EXPIREAT and PEXPIREAT set the deadline in seconds or milliseconds, relative or absolute, exactly within the i64 range; numbers that are not positive give a deadline in the past. |
| `Decoding.DecodedIffSpelled` | src/cmd/mod.rs:303-511 | A request is decoded to a command without a deadline exactly if it has the name of the command, in any case of letters, and its arguments in their places, numbers in any spelling. |
| `Decoding.UnknownIff` | src/cmd/mod.rs:509 | A request is an unknown command exactly if its name is, in no case of letters, one of the table. |
| `Decoding.ArityIff` | src/cmd/mod.rs:317-511 | Arguments are refused for their number exactly if no arguments of that number would do. |
| `Decoding.NumbersRefused` | src/cmd/mod.rs:675-692 | With the right number of arguments, a command that takes numbers is refused exactly if one does not read as a number, or is a negative count. |
| `Decoding.MalformedIff` | src/cmd/mod.rs:304-316 | What is no request is refused for what it lacks first: an array, items, a bulk string for a name, UTF-8, and then the first other item that is no bulk string. |
| `Writes.WritesIffCanChange` | src/cmd/mod.rs:65-111 | The writes are exactly the commands by whose name some keyspace can be changed. |
| `Codec.LoggedIffWrite` | src/cmd/mod.rs:65-223 | A command has a log form exactly when it is a write. |
| `Laws.OnlyMutatedKeysChange` | src/cmd/mod.rs:225-271 | No command changes a key outside its mutated keys, and no read changes any. |
| `Laws.ErrorsChangeNothing` | src/cmd/string.rs:105-128 | A decoded command that replies with an error leaves the keyspace alone if and only if it is not an APPEND of an oversized suffix to a missing key. |
| `Laws.ExecLater` | src/cmd/mod.rs:513-577 | Running the log form of a write later gives the same keyspace and reply when its deadline is not crossed. |
| `Laws.CrossingADeadlineMatters` | src/cmd/string.rs:80-103 | SET with a deadline, then INCR, differ before and after that deadline, for every deadline in between. |
| `Laws.ReplaysAlikeIff` | src/cmd/mod.rs:113-223 | A write and every possible write after it, on every keyspace, replayed later, give what is live in memory then, if and only if the deadline of the first is not crossed. |
| `Laws.WriteReplays` | src/cmd/mod.rs:113-223 | A write that succeeded, replayed at any later reading on what is live then, succeeds and gives what is live then of its result, whatever its own deadline, if it needs no key that expires in between. |
| `Laws.WriteReplaysIff` | src/cmd/mod.rs:113-223 | It gives that at every reading up to the last one if and only if it needs no key that expires in between. |
| `Ordering.SortedLists` | src/db/mod.rs:206 | Sorting by key keeps each pair of the map once and puts the keys in ascending order. |
| `Ordering.SortedIsListed` | src/aof.rs:528-529 | However a hash table is walked, sorting its pairs by key yields the same sequence. |
| `Conservation.DelCountsWhatItRemoves` | src/cmd/string.rs:50-62 | The reply of DEL is the number of keys that are gone, repeats counted once. |
| `Conservation.ExistsCountsLikeDel` | src/cmd/string.rs:64-78 | On distinct keys EXISTS counts what DEL would remove. |
| `Conservation.HSetCountsWhatItAdds` | src/cmd/hash.rs:11-32 | The reply of HSET is the growth of the hash. |
| `Conservation.HDelCountsWhatItRemoves` | src/cmd/hash.rs:50-75 | The reply of HDEL is the shrinking of the hash. |
| `Conservation.DecrUndoesIncr` | src/cmd/string.rs:80-103 | INCRBY then DECRBY restores the number and keeps the deadline. |
| `Queues.ListIsAQueue` | src/cmd/list.rs:14-100 | Over any run that pushes a list at one end and pops it at the other, with anything else on other keys: what the replies handed out, then what is left, is what was there, then what was pushed. |
| `Queues.PopUndoesPush` | src/cmd/list.rs:14-100 | Popping as many as were pushed at the same end replies them, last first, and restores the keyspace; a reply over the limit pops nothing. |
| `Queues.RepliesAddUp` | src/cmd/list.rs:14-189 | In replies alone: what the pops handed out, then what LRANGE shows at the end, is what LRANGE showed at the start, then what was pushed. |
| `Queues.SetReadsBack` | src/cmd/string.rs:11-48 | After SET and any run on other keys, GET, STRLEN and PTTL read the value, its length and the time left until the deadline, and nothing from then on. |
| `Counters.NumbersAddUp` | src/cmd/string.rs:80-103 | INCR, DECR, INCRBY and DECRBY reply with the number GET read before plus 1, -1, n or -n; GET reads that from then on and the deadline stays; or they say exactly why not and change nothing. |
| `Counters.NumberRestored` | src/cmd/string.rs:80-103 | Counting up and down by the same restores a plainly printed number and everything else. |
| `Counters.FieldsAddUp` | src/cmd/hash.rs:175-203 | HINCRBY replies with the number HGET read before plus the increment; HGET reads that from then on, every other field and the deadline stay; or it says exactly why not and changes nothing. |
| `Counters.FieldRestored` | src/cmd/hash.rs:175-203 | HINCRBY by n and then by -n restores a field that held a plainly printed number, and everything else. |
| `Counters.AppendReadsBack` | src/cmd/string.rs:105-128 | APPEND replies with the length of what GET reads from then on, the old text and the suffix; a text too long for a reply is refused. |
| `ListReads.RangeReadsPositions` | src/cmd/list.rs:147-189 | LRANGE replies with the elements at the positions between the bounds, each once and in order, a bound below zero counting from the end, or refuses exactly a reply of more than 64 MiB. |
| `ListReads.PushedIsRead` | src/cmd/list.rs:14-36 | So it does for a list that a push left, counted through what was there and what was pushed, later on too. |
| `ListReads.LastElements` | src/cmd/list.rs:147-189 | LRANGE from -n to -1 is the last n elements. |
| `ListReads.IndexReadsPosition` | src/cmd/list.rs:191-216 | LINDEX reads the element at a position, counted from either end, and nothing outside; LLEN counts the elements. |
| `ListReads.PushedList` | src/cmd/list.rs:14-36 | A push replies with the length of the list it leaves, which is what was there and the values at the chosen end; the deadline stays. |
| `ListReads.PopsAsMany` | src/cmd/list.rs:51-100 | A pop hands out one element, or with a count as many as asked for or there are, in the form the count asks for, and leaves the others; a reply of more than 64 MiB is refused and nothing is popped. |
| `ListReads.NothingToPop` | src/cmd/list.rs:51-63 | Where nothing is, a pop replies a null, or a null array with a count. |
| `ListReads.NoListReads` | src/cmd/list.rs:147-160 | Without a list, LRANGE reads nothing, LINDEX a null and LLEN 0; other values are refused. |
| `HashReads.HSetReadsBack` | src/cmd/hash.rs:11-32 | From HSET on HGET reads of each field the last value given, or what it read before; the reply is the growth of HLEN, and the deadline stays. |
| `HashReads.HDelReadsBack` | src/cmd/hash.rs:50-75 | From HDEL on HGET reads none of the fields named and all others as before; the reply is the shrinking of HLEN; the key goes with its last field. |
| `HashReads.FieldReads` | src/cmd/hash.rs:34-48 | HEXISTS agrees with HGET, and HLEN counts the fields. |
| `HashReads.ListingsWalk` | src/cmd/hash.rs:77-149 | HKEYS lists every field once, HVALS their values and HGETALL both in turn, all in one order, or a refusal of more than 64 MiB. |
| `HashReads.NoHashReads` | src/cmd/hash.rs:34-48 | Without a hash, HGET reads a null, HEXISTS and HLEN 0 and the listings nothing; other values are refused. |
| `Lifetimes.SecondsAndMillis` | src/cmd/string.rs:232-252 | TTL counts the whole seconds and PTTL the milliseconds left, both at most i64::MAX, with -1 and -2 where there is no deadline or no key. |
| `Lifetimes.ExpireReadsBack` | src/cmd/string.rs:205-230 | The expiry commands reply 1 exactly where there is a key; from then on it is there as it was with the new deadline, until that has come. |
| `Lifetimes.PersistReadsBack` | src/cmd/string.rs:254-265 | PERSIST replies 1 exactly where there is time left; from then on the key is there as it was, without a deadline. |
| `Lifetimes.WrongTypeIff` | src/cmd/mod.rs:513-577 | A command is refused for the type of a value exactly where another type is than the one it works on, and then changes nothing. |
| `ManyKeys.ExistsCounts` | src/cmd/string.rs:64-78 | EXISTS counts the keys that PTTL finds, each as often as it is mentioned. |
| `ManyKeys.DelReadsBack` | src/cmd/string.rs:50-62 | DEL replies how many of the keys were there, each once, and from then on none of them is. |
| `ManyKeys.MGetIsGets` | src/cmd/string.rs:141-178 | MGET replies key by key, in their order, with what GET reads, and null where GET refuses. |
| `ManyKeys.MSetReadsBack` | src/cmd/string.rs:180-203 | MSET is refused whole exactly if a value is too long for a reply; otherwise GET reads of each key the last value given, without a deadline, and the others stay. |
| `ManyKeys.SetRefusedIff` | src/cmd/string.rs:27-48 | SET is refused exactly if the value is too long for a reply. |
| `Replies.RefusalIsOneLine` | src/cmd/mod.rs:567-574 | The refusal of an unknown command, whatever its name, is one line that a client reads back as that refusal. |
| `Replies.AnswersWithoutKeys` | src/cmd/mod.rs:513-522 | From the request on, ECHO and PING answer with their argument, PING alone with PONG, and nothing changes. |
| `Conservation.AppendsJoin` | src/cmd/string.rs:105-128 | Appending in two pieces is appending the whole, reply included. |
| `Conservation.LastPairWins` | src/cmd/string.rs:180-202 | After MSET a key holds the last value given for it, without a deadline. |
| `Conservation.LastFieldWins` | src/cmd/hash.rs:11-32 | After HSET a field holds the last value given for it. |
| `Sizes.ReceivedFits` | src/resp/parser.rs:208-239 | Every bulk string in a received frame could be sent back. |
| `Sizes.ServedStaysSane` | src/cmd/mod.rs:513-577 | After any requests no list or hash is empty and every stored string could be sent back. |
| `Sizes.ReceivedErrorsChangeNothing` | src/server.rs:140-155 | A command that arrived as a frame and replies with an error changes nothing. |
| `Sizes.EveryReplyFits` | src/connection.rs:70-78 | After any requests, every reply to a data command is at most 64 MiB. |
| `TtlIndex.ReindexedIndexes` | src/db/mod.rs:46-61 | Moving one row keeps the index exact: each key listed once, at its deadline, and no row empty. |
| `TtlIndex.IndexIsDetermined` | src/db/mod.rs:176-191 | The entries determine the index up to the order inside a row, so restoring entries restores the index. |
| `Shards.Shard.UnindexExpiration` | src/db/mod.rs:46-53 | The key leaves the row, and an emptied row leaves the index. |
| `Shards.Shard.RemoveEntry` | src/db/mod.rs:55-61 | The entry and its row are gone, nothing else, and the index stays exact. |
| `Shards.Shard.ExpireIfStale` | src/db/mod.rs:63-72 | The entry goes exactly when its deadline has come. |
| `Shards.Shard.InsertEntry` | src/cmd/string.rs:31-46 | Overwriting an entry moves its row in the index. |
| `Shards.Shard.Get` | src/cmd/string.rs:11-20 | Replies with the live string, nil, or a type error. |
| `Shards.Shard.SetAt` | src/cmd/string.rs:27-48 | The key holds the value and deadline, other keys are untouched, an oversized value is refused. |
| `Shards.Shard.Incr` | src/cmd/string.rs:80-103 | Adds to the number or reports type, format or overflow, keeping the deadline. |
| `Shards.Shard.Append` | src/cmd/string.rs:105-128 | Appends or refuses; the entry is created first. |
| `Shards.Shard.Strlen` | src/cmd/string.rs:130-139 | The length of the live string. |
| `Shards.Shard.ExpireAt` | src/cmd/string.rs:210-230 | Sets a future deadline, deletes for a past one, and ignores missing keys. |
| `Shards.Shard.Ttl` | src/cmd/string.rs:232-252 | What is left, -1 without a deadline, -2 for a missing or expired key. |
| `Shards.Shard.Persist` | src/cmd/string.rs:254-265 | Drops the deadline of a live key and says whether there was one. |
| `Shards.PushLoop` | src/cmd/list.rs:29-34 | Pushing one by one puts the values at the chosen end, reversed on the left. |
| `Shards.Shard.Push` | src/cmd/list.rs:14-36 | The list grows at the chosen end and the reply is its length. |
| `Shards.PopLoop` | src/cmd/list.rs:82-91 | Popping one by one returns the elements in order and leaves the others. |
| `Shards.Shard.Pop` | src/cmd/list.rs:51-100 | Pops up to the count; a reply over the limit is refused before anything is popped; an emptied list is removed. |
| `Shards.PopArrayResponseTooLarge` | src/cmd/list.rs:102-119 | The running total refuses exactly when the whole reply would exceed 64 MiB. |
| `Shards.Shard.LRange` | src/cmd/list.rs:147-189 | The clamped range, refused exactly when its encoding would exceed 64 MiB. |
| `Shards.Shard.LLen` | src/cmd/list.rs:191-200 | The length of the live list. |
| `Shards.Shard.LIndex` | src/cmd/list.rs:202-216 | The element at an index from either end, or nil. |
| `Shards.Shard.HSet` | src/cmd/hash.rs:11-32 | Sets the fields in order and counts the new ones. |
| `Shards.Shard.HGet` | src/cmd/hash.rs:34-48 | The field of the live hash, or nil. |
| `Shards.Shard.HDel` | src/cmd/hash.rs:50-75 | Removes the fields, counts them, and removes an emptied hash. |
| `Shards.BoundedBulks` | src/cmd/hash.rs:134-149 | The shared reply loop refuses exactly when the whole array would exceed 64 MiB. |
| `Shards.Shard.HashListing` | src/cmd/hash.rs:77-132 | HKEYS, HVALS and HGETALL list the live hash in some order, bounded. |
| `Shards.Shard.HExists` | src/cmd/hash.rs:151-161 | Whether the live hash has the field. |
| `Shards.Shard.HLen` | src/cmd/hash.rs:163-173 | The size of the live hash. |
| `Shards.Shard.HIncrBy` | src/cmd/hash.rs:175-203 | Adds to the field or reports type, format or overflow. |
| `Shards.Shard.ApplyKeyed` | src/cmd/mod.rs:513-577 | Dispatch: each command about one key has its effect on that key alone and its reply, and the index stays exact. |
| `Shards.Shard.Sweep` | src/db/expire.rs:17-38 | Afterwards exactly the entries not yet due remain, and the index is exact. |
| `Listings.RefusalIgnoresOrder` | src/cmd/hash.rs:77-149 | Whether a hash listing is refused does not depend on the iteration order. |
| `Database.Db.constructor` | src/db/mod.rs:95-105 | Sixteen empty shards hold the empty map. |
| `Database.OneKeyChanged` | src/db/mod.rs:107-110 | Changing the shard of a key at that key changes the whole at that key and keeps every key in its shard. |
| `Database.Db.Del` | src/cmd/string.rs:50-62 | DEL over several shards does what it does on one map; stale entries go uncounted. |
| `Database.Db.Exists` | src/cmd/string.rs:64-78 | Counts the live keys, repeats included. |
| `Database.Db.MGet` | src/cmd/string.rs:141-178 | Replies with the live strings in order and refuses exactly when the whole reply would exceed 64 MiB. |
| `Database.Db.MSet` | src/cmd/string.rs:180-202 | Sets all pairs or, when a value is too large, none. |
| `Database.Db.Apply` | src/cmd/mod.rs:513-577 | Every command moves the live view of the sharded store as it moves one plain map, with the same reply, and touches only its own keys. |
| `Database.Db.SnapshotEntries` | src/db/mod.rs:162-174 | Each of the keys once, in order, with the entry stored there, expired or not. |
| `Database.Db.RestoreEntries` | src/db/mod.rs:176-191 | Every saved key holds its saved entry or nothing again. |
| `Database.RestoreUndoes` | src/db/mod.rs:162-191 | Restoring undoes any change to the saved keys exactly. |
| `Database.RestoreUndoesLive` | src/server.rs:132-147 | With sweeps in between, restoring gives back the live view. |
| `Database.Db.AofSnapshotEntries` | src/db/mod.rs:193-208 | The entries of the live view, each key once, in order. |
| `Database.Db.SweepOnce` | src/db/expire.rs:15-39 | The stored entries become the live view: nothing due remains. |
| `Expiry.RunsLikeThePlainMap` | src/db/expire.rs:15-39 | Every run of the store answers like one plain map and ends with its live view, for a monotone clock. |
| `Expiry.SweepsAreInvisible` | src/db/expire.rs:15-39 | Two runs that ask the same at the same times get the same replies, however often either sweeps. |
| `Replay.LoadAppend` | src/aof.rs:272-348 | Replaying a kept file followed by more bytes is replaying the rest from there. |
| `Blanks.ParseRestrict` | src/resp/parser.rs:16-47 | A frame found inside a part of the file is found in that part alone. |
| `Replay.KeptPrefixReloads` | src/aof.rs:349-358 | Replaying the kept part again gives the same keyspace and count and cuts nothing. |
| `LogRuns.LongestGoodPrefix` | src/aof.rs:260-362 | The kept part is the leading frames that parse, decode and apply without error; the keyspace is what they make; no further frame applies. |
| `LogRuns.LoadTorn` | src/aof.rs:331-340 | A frame cut short at the end is dropped and nothing else. |
| `LogRuns.ReplayGoesOnIff` | src/aof.rs:290-323 | A replay goes on behind a frame exactly if it decodes to a command that replies with no error; otherwise the file ends before it, though a decoded command has been run. |
| `Requests.WireRequest` | src/resp/parser.rs:16-47 | A printed request followed by anything is read back, and the rest left, if and only if it has at most 1048576 items and 64 MiB; otherwise the parse is an error. |
| `Requests.ReceivedLength` | src/resp/parser.rs:16-47 | A received array has at most 1048576 items, and a received frame prints in no more bytes than it came in, blank lines not counted; inline commands stay far below the limit. |
| `Requests.LogGrowth` | src/cmd/mod.rs:113-223 | The log form of a decoded write has no more items than its request and at most 22 bytes more. |
| `Requests.SharpGrowth` | src/cmd/mod.rs:113-223 | `EXPIRE key 1` that arrives one second before a deadline of 19 digits decodes to that deadline, and its log form has exactly 22 bytes more. |
| `Requests.ShortRequestsAreLoggable` | src/server.rs:129-140 | Every write that came in at least 22 bytes below 64 MiB has a log form that can be read back. |
| `LogRuns.LogReloads` | src/aof.rs:260-362 | A log of requests, all of which would apply, reloads exactly up to the first that is too long for the parser; it is kept whole if and only if there is none. |
| `LogRuns.OversizedWriteIsLost` | src/server.rs:129-155 | A SET with PX of exactly 64 MiB is received, decoded and answered OK, and a restart drops it and everything logged behind it. |
| `LogRuns.LogRefinesRun` | src/server.rs:129-155 | Replaying the log of a run of successful writes, at any later reading, gives what is live then of the keyspace of the run, if no write needs a key that expires before the last reading. |
| `LogRuns.LogRefinesRunIff` | src/server.rs:129-155 | At every point of the run and every reading up to the last one it does, if and only if no write needs a key that expires in between. |
| `LogRuns.RestartKeepsEverything` | src/aof.rs:260-362 | The same on bytes: a restart on the log shows what is live then of the run and keeps the whole file, if and only if every log frame is within the limits of the parser. |
| `ReplayReads.SteadyReads` | src/aof.rs:272-348 | A replay that applies no frame with a header line of 1 MiB comes, for every way to read the file, to the same keyspace and count. |
| `ReplayReads.ReplayIgnoresReadsIff` | src/aof.rs:272-348 | And only such a replay does. |
| `LogRuns.ClockStandsStill` | src/aof.rs:290-310 | The replay that reads the clock for every command is, while the clock stands still, the one at a single reading. |
| `LogRuns.RestartWhileTheClockRuns` | src/aof.rs:290-310 | Also when the clock moves on between the commands of a replay, the log of a run is kept whole and the store shows at the last reading what the run shows, if and only if every log frame is within the limits of the parser. |
| `Recovery.ReplayFile` | src/aof.rs:260-362 | The replay loop, for any file in reads of any sizes: the store shows what the reads replay to, the count is right, what is kept replays again to the same and whole; if the reads do not matter, the file is cut at the end of the good prefix up to blank lines. |
| `Chunking.ChunkedCommandLenExact` | src/aof.rs:668-681 | The running sum is the exact length of the command frame that is built. |
| `Chunking.MaxPayloadLenForFrame` | src/aof.rs:648-666 | The binary search returns the greatest payload that fits, or nothing when none does. |
| `Chunking.ChunksLoseNothing` | src/aof.rs:482-569 | The chunks, one after the other, are the elements, in order. |
| `Chunking.ChunksFit` | src/aof.rs:571-629 | No chunk is empty and each fits 64 MiB, so a flush is never refused for its size. |
| `Chunking.ChunksFailIff` | src/aof.rs:502-511 | Cutting fails exactly when one element, or one field with its value, does not fit a frame of its own. |
| `Chunking.SlicesLoseNothing` | src/aof.rs:467-478 | The APPEND slices are not empty, not too long, and make up the string. |
| `SnapshotFile.TempFile.WriteReplayableFrame` | src/aof.rs:613-629 | Writes the encoding of a frame, or refuses exactly the frames over 64 MiB. |
| `SnapshotFile.TempFile.WriteString` | src/aof.rs:447-480 | Writes one SET, or an empty SET, APPENDs and the expiry, exactly as described. |
| `SnapshotFile.TempFile.WriteSlices` | src/aof.rs:467-478 | The APPEND loop writes every slice, and none is refused for its size. |
| `SnapshotFile.TempFile.WriteList` | src/aof.rs:482-519 | The loop writes exactly the greedy chunks as RPUSH frames and the expiry, or refuses when there are none. |
| `SnapshotFile.TempFile.WriteHash` | src/aof.rs:521-569 | The fields are sorted, and the loop writes exactly the greedy chunks as HSET frames and the expiry, or refuses when there are none. |
| `SnapshotFile.WriteEntry` | src/aof.rs:424-445 | An expired or empty entry writes nothing; any other writes exactly its frames. |
| `SnapshotFile.WriteSnapshotEntries` | src/aof.rs:409-422 | The file holds the frames of all entries, in order. |
| `Rebuild.EntryReplays` | src/aof.rs:424-611 | The frames of an entry, replayed at any time, build the entry with the deadline that comes back, nothing once it is due, and are refused exactly when the deadline is. |
| `Rebuild.EntryRebuilds` | src/aof.rs:424-611 | The frames of an entry, replayed at any later time, build exactly that entry, or nothing once its deadline has passed, if and only if the deadline comes back. |
| `Rebuild.SnapshotRebuilds` | src/aof.rs:409-422 | A complete snapshot replays to the live view if and only if every deadline comes back. |
| `Rebuild.EntryFewItems` | src/aof.rs:482-569 | The frames of an entry have at most 1048576 items if and only if every chunk of the list or hash has at most 1048574 parts. |
| `Rebuild.SnapshotReloads` | src/aof.rs:409-629 | As bytes: the snapshot reloads whole, as the live view, if and only if every deadline comes back and every chunk of a live list or hash has at most 1048574 parts. |
| `Rebuild.ShortCountsFit` | src/aof.rs:482-569 | Lists of at most 1048574 elements and hashes of at most 524287 fields always meet the count condition. |
| `Rebuild.LongListIsLost` | src/aof.rs:494-500 | A list of 1048575 or more empty strings is written as one frame that no replay accepts. |
| `Rebuild.ChunkingSparesWhatFits` | src/db/mod.rs:210-255 | Where every value fits one frame, the chunked frames are the unchunked ones. |
| `SnapshotSize.CollectionsAreCutLate` | src/aof.rs:482-569 | A list or hash is cut only where one more element, or field with its value, would make a frame of more than 64 MiB, and is refused exactly if one of them does by itself. |
| `SnapshotSize.StringsAreCutLate` | src/aof.rs:447-480 | A string goes into one SET if that has at most 64 MiB; otherwise into an empty SET and APPENDs that each, but the last, could not hold one more byte; it is refused exactly if one of these does not fit. |
| `AofDisk.WriteMeans` | src/aof.rs:764-799 | An append is durable on success; on failure the old bytes are kept and nothing but a part of the append may follow them, at every point on the way. |
| `AofDisk.FinishMeans` | src/aof.rs:878-907 | Without the rename the log is the old one; with it, it is, complete and durable, the snapshot followed by the buffered frames, and the old file stays a possible crash image until the directory is synced. |
| `AofDisk.RollbackNeedsTheSize` | src/aof.rs:846-855 | A failed append is taken back exactly if and only if the size counter is right. |
| `AofDisk.RollbackAfterRename` | src/aof.rs:899-904 | An append that fails after a rewrite is taken back to the rewritten log if and only if the last sync and the metadata call succeeded, or the lengths agree. |
| `AofDisk.CrashAfterRename` | src/aof.rs:897-906 | A crash after an acknowledged append leaves the whole new log or, if and only if the rename is not durable, also what it could leave of the old one. |
| `AofDisk.MetadataFailureEmptiesTheLog` | src/aof.rs:903 | When only the metadata call fails the rewrite reports success, and the next failed append empties the log. |
| `AofDisk.UnsyncedRenameLosesWrites` | src/aof.rs:897-906 | When the directory sync fails, a crash may bring back the old log without a later acknowledged write. |
| `AofDisk.StaleSizeDamagesTheLog` | src/aof.rs:899-904 | When the sync after the rename fails, the next rollback resizes the new log to the old length. |
| `AofWriter.RewriteBuffer.Push` | src/aof.rs:104-115 | Adds the frame and its length, or refuses and stays as it is when 64 MiB would be exceeded. |
| `AofWriter.Writer.RollbackActiveFile` | src/aof.rs:846-855 | Cuts the file back and resets the size counter; a failed sync is ignored, a failed resize changes nothing. |
| `AofWriter.Writer.HandleWrite` | src/aof.rs:765-799 | Append, sync, buffer, or roll back and refuse from then on: the new state, the answer and the disk states on the way. |
| `AofWriter.Writer.AppendBuffer` | src/aof.rs:890-894 | The loop appends the buffered frames to the temporary file, or a prefix of them. |
| `AofWriter.Writer.SwitchOver` | src/aof.rs:896-906 | From the rename on the new file is the log; a failed directory sync is only reported, a failed last sync leaves the old size, a failed metadata call a size of zero. |
| `AofWriter.Writer.HandleFinishRewrite` | src/aof.rs:878-907 | The steps of ending a rewrite with every failure: the new state, the answer and the disk states on the way. |
| `AofWriter.Writer.Handle` | src/aof.rs:764-829 | One turn of the writer loop has the effect of its message. |
| `AofInvariant.WriteOnStore` | src/server.rs:132-139 | A write on the stored entries moves the live view at the later clock reading as it moves the plain map. |
| `AofSafety.ClientAppliesKeeps` | src/server.rs:129-140 | Applying a write under the gate keeps the invariant. |
| `AofSafety.ClientEndsKeeps` | src/server.rs:142-155 | Acknowledging a write, or rolling it back, keeps the invariant. |
| `AofSafety.TaskSnapshotsKeeps` | src/aof.rs:387-393 | The snapshot is of the keyspace at the start of the buffer, since the gate is held from the one to the other. |
| `AofSafety.SnapshotMeans` | src/aof.rs:395-399 | What the rewrite wrote to the temporary file replays to the keyspace at the start of the buffer. |
| `AofSafety.ServesWrite` | src/aof.rs:765-799 | Serving a write keeps the invariant, overflow of the rewrite buffer included. |
| `AofSafety.ServesFinish` | src/aof.rs:809-823 | Ending a rewrite keeps the invariant, whether it fails before the rename or only to make the rename durable. |
| `AofSafety.StepKeepsInv` | src/aof.rs:384-407 | Every step of clients, sweeper, rewrite tasks and writer keeps the invariant. |
| `AofSafety.StepStaysSafe` | src/aof.rs:384-407 | And keeps it for a replay at every reading from the step on. |
| `AofCrashes.ReachedIsExplained` | src/aof.rs:833-907 | Every file a power loss may bring under the name of the log, at any point, holds the log with a part of one append, its firm part durably, or durably the complete log of the rewrite that is just being finished, or is a file that was replaced and whose rename was not durable before. |
| `AofCrashes.CrashExplained` | src/aof.rs:833-907 | With every rename durable, whatever a power loss leaves is the durable part of the log and a part of the rest, or that complete log. |
| `AofCrashes.ExplainedRecovers` | src/aof.rs:331-358 | Such a file replays to exactly the frames it holds whole, which mean the fold of their writes. |
| `AofCrashes.ReplayKeepsFrames` | src/aof.rs:260-362 | The start-up replay of such a file, however it is read, shows that keyspace and keeps exactly those frames. |
| `AofGuarantees.LogIsMemory` | src/aof.rs:384-407 | Over every run with any number of restarts: while no client is inside a write and no failed append is left behind, the log replays, now or at any later reading, to exactly the live view and is kept whole, also after renames that were not made durable. |
| `AofGuarantees.BufferIsTheDifference` | src/aof.rs:783-793 | While a rewrite buffers, the log is the log at its start followed by the buffered frames. |
| `AofGuarantees.AckedIsTheFold` | src/server.rs:140-157 | What counts as acknowledged is the fold, in order, of the writes the log held at each acknowledgement, the last of which is the write of the client that is answered. |
| `AofGuarantees.UnackedAreFew` | src/server.rs:140-157 | The log never holds more unacknowledged writes than there were restarts since the last acknowledgement, and the one whose client is being told. |
| `AofGuarantees.CrashBetweenSteps` | src/aof.rs:764-799 | Over every run, with every rename durable, whatever a power loss leaves replays, at any reading, to the same keyspace: all acknowledged and all durable writes, then the first few of the others, of which the last may be the one in flight or the one whose append failed. |
| `AofGuarantees.CrashInsideAStep` | src/aof.rs:833-907 | The same after every single file operation inside a message, before and after the rename. |
| `AofGuarantees.ShortRequestsAreAllowed` | src/server.rs:129-140 | For a request that came in at least 22 bytes below 64 MiB, the assumption on writes says no more than that its deadline can be logged and that it needs no key which expires before the last replay. |
| `AofGuarantees.FreshServerStarts` | src/main.rs:34-39 | A server with an empty log and an empty store is a start state. |
| `AofGuarantees.RestartStarts` | src/main.rs:36-39 | After a power loss, or after the process was killed with files and renames as durable as they were and no cut of the log waiting for its sync, the replay of what is found yields a store and a kept file that are a start state again, holding all acknowledged and durable writes and the first few of the others. |
| `AofGuarantees.RestartsKeepWhatWasAcknowledged` | src/main.rs:36-39 | So it is for every restart of every run, and its store shows the fold of exactly those writes. |
| `AofGuarantees.KilledProcessLosesNothing` | src/aof.rs:260-362 | When the process is killed, at any point at which no cut of the log waits for its sync (after a rollback whose re-sync failed one does, for the rest of that process), the restarted store shows every write that was in the log and at most the one a client waits for or whose append failed. |
| `AofGuarantees.RestartIsPossible` | src/aof.rs:260-382 | Whatever a power loss or a killed process leaves in any run, a start-up can follow at any later reading. |
| `AofGuarantees.ShortSnapshotsAreAllowed` | src/aof.rs:482-569 | The assumption on the chunks of a snapshot holds for lists of at most 1048574 elements and hashes of at most 524287 fields. |
| `AofGuarantees.KilledAtTheRename` | src/aof.rs:897-898 | When the process is killed between the rename and the directory sync, the next start-up settles nothing: an append it acknowledges is lost if a power loss brings the old log back. |
| `AofGuarantees.RewritesExclude` | src/aof.rs:145-181 | Without a rewrite in progress there is no buffer and no rewrite message; counts add up; a buffer belongs to the one rewrite in progress. |
| `AofGuarantees.RewritesAreServed` | src/aof.rs:800-828 | A start is never refused, an end takes only its own buffer, and an overflowed rewrite ends without touching the log. |
| `AofRewrites.BufferLivesUpToItsLimit` | src/aof.rs:104-115 | Over every run, from its start to its end a rewrite has its buffer exactly as long as what was written since the start takes at most 64 MiB in the log. |
| `AofRewrites.RewriteTakesEffect` | src/aof.rs:809-823 | Over every run, the end of a rewrite puts the snapshot followed by all writes since the start in place of the log exactly if they are within that limit and nothing fails up to the rename, and reports success exactly if the two syncs behind it succeed as well; otherwise the log stays as it is. |
| `AofRewrites.WritesAreServed` | src/aof.rs:764-799 | Over every run, the writer acknowledges a write exactly if it has not failed before and append and sync succeed; the log is then longer by exactly that frame, durably. |
| `AofRewrites.RewriteGoesThrough` | src/aof.rs:384-407 | From every reached state without a rewrite and a writing client, a rewrite can go through: the log is then just what the snapshot printed, durably, and the program as it was. |
| `Server.WriteBranch` | src/server.rs:129-157 | Save, apply, log, and restore on failure: an error is not logged, a write that cannot be logged is undone exactly, a success is in the store and durably in the log. |
| `Server.RewriteNow` | src/aof.rs:384-407 | A rewrite that meets no other write leaves, on success, exactly the printed snapshot as the durable log and, on failure, the log as it was, unless only the rename could not be made durable. |
| `Server.RewrittenLogReloads` | src/aof.rs:384-407 | Such a log reloads as the store that was rewritten, if and only if every deadline comes back and every chunk has at most 1048574 parts. |
| `Server.StartUp` | src/main.rs:36-39 | Replay into an empty store and a writer on what was kept, of which only a cut is synced and no rename is settled: the state of a restart, when both can measure the file. |

## Left out

- Database.Db.Apply: PUBLISH replies 0 and INFO an empty string, because publish/subscribe and the INFO text are not part of this model.
- Shards.Shard.HashListing: the iteration order of a hash map is any order.
- Sizes.EveryReplyFits: counts are assumed to fit an i64, which holds for anything that fits in memory; Unknown and INFO are excluded.
- Recovery.ReplayFile: one clock reading serves the whole replay, where the program reads the clock for every command; for the log of a run `LogRuns.RestartWhileTheClockRuns` has one reading for each. When the length of the file cannot be measured it is not cut, and what appends behind a torn tail come to is not followed up.
- AofGuarantees.LogIsMemory: assumes what `AofInvariant.Allowed` lists: requests as clients can send them, log frames within the parser's limits, no write that needs a key which expires before `T`, chunks of at most 1048574 parts, no deadline beyond i64, and a size counter that stays right; the section above gives for each what happens where it fails, and exactly when.
- AofGuarantees.CrashBetweenSteps: the same assumptions, and every rename durable (`AofDisk.CrashAfterRename` says what a power loss may leave otherwise); the fsync policy is `always`.
- AofGuarantees.CrashInsideAStep: as for `CrashBetweenSteps`.
- AofGuarantees.KilledProcessLosesNothing: as for `RestartStarts` below, no kill while a cut of the log waits for its sync.
- AofGuarantees.RestartStarts: no power loss while a rename is not durable, and no process killed while a cut of the log waits for its sync: between the cut of a failed append, or of a start-up, and its sync, and at every later moment of a process in which the re-sync of a rollback has failed; the calls that measure the file at start-up succeed; `Server.StartUp` says what they leave otherwise, and `AofDisk.RollbackNeedsTheSize` what that does.
- AofRewrites.BufferLivesUpToItsLimit, `AofRewrites.RewriteTakesEffect` and the two beside them: over the same runs.
- Server.RewriteNow: runs without interruption; the interleavings are those of the step machine.
- LogRuns.LogRefinesRun: deadlines beyond i64 are excluded; `Codec.LogDecodes` says when they come back.
- The `everysec` and `no` policies: their timers only weaken the crash guarantee.
- Running without an append-only file: the write branch then skips the log and the saved entries.
- Publish/subscribe, INFO, replies on the wire, timeouts, I/O errors and the accept loop.
- Channels and tasks as such: the writer's queue is a sequence, the gate is exclusive, one step is atomic except for the disk states inside it.
- The key hash: any deterministic function; the sixteen shards are kept.
- Error wording and log messages: one constant text per kind of error.
- Concurrent access to two shards at once: every command runs alone.
- Lengths beyond what memory can hold: the one unchecked sum in the list chunker cannot wrap, since no allocation exceeds `isize::MAX`.
- Removing the temporary file; a log that was not written by this program is replayed but starts no run.
