/** Which requests come back from a log, which do not, and how long the log form of a write is
    compared with the request it came in (`src/resp/parser.rs`, `src/cmd/mod.rs`). */
module Requests {
  import opened Base
  import opened Limits
  import opened Frames
  import opened Parser
  import opened Streaming
  import opened Blanks
  import opened RoundTrip
  import opened Commands
  import Codec

  // ---- the length of a request ----

  /** What the items of a request add to its encoding. */
  function PartsLen(parts: seq<Bytes>): nat {
    if parts == [] then 0 else BulkLen(|parts[0]|) + PartsLen(parts[1..])
  }

  lemma {:induction false} PartsLenIsEncoded(parts: seq<Bytes>)
    ensures |EncodeAll(Bulks(parts))| == PartsLen(parts)
  {
    if parts != [] {
      assert Bulks(parts)[1..] == Bulks(parts[1..]);
      PartsLenIsEncoded(parts[1..]);
    }
  }

  lemma RequestLenIs(parts: seq<Bytes>)
    ensures |Encode(Request(parts))| == HeaderLen(|parts|) + PartsLen(parts)
  {
    hide EncodeAll;
    PartsLenIsEncoded(parts);
  }

  lemma {:induction false} PartInside(parts: seq<Bytes>, i: nat)
    requires i < |parts|
    ensures BulkLen(|parts[i]|) <= PartsLen(parts)
  {
    if i > 0 {
      PartInside(parts[1..], i - 1);
    }
  }

  predicate RequestFits(parts: seq<Bytes>) {
    |parts| <= MAX_ARRAY_LEN && |Encode(Request(parts))| <= MAX_BUFFERED_FRAME_BYTES
  }

  lemma RequestIsWire(parts: seq<Bytes>)
    ensures Wire(Request(parts)) <==> RequestFits(parts)
  {
    hide EncodeAll, Encode;
    RequestLenIs(parts);
    if RequestFits(parts) {
      forall i | 0 <= i < |Bulks(parts)|
        ensures Fits(Bulks(parts)[i], 1, false)
      {
        PartInside(parts, i);
      }
    }
  }

  // ---- refused requests ----

  lemma CountLineAt(buf: Bytes, pos: nat, n: nat)
    requires At(buf, pos, Dec(n) + CRLF)
    ensures var r := ReadLineInt(buf, pos, true);
      if n <= I64_MAX then r == Done(n, pos + |Dec(n)| + 2) else r.Bad?
  {
    hide ReadLine, ParseI64, Dec;
    LineAt(buf, pos, Dec(n), true);
    ParseDecInt(n);
  }

  lemma LongBulkAt(buf: Bytes, pos: nat, b: Bytes)
    requires At(buf, pos, Encode(Bulk(b))) && BulkLen(|b|) > MAX_BUFFERED_FRAME_BYTES
    ensures ParseFrame(buf, pos, 1, true).Bad?
  {
    hide ReadLineInt, ParseArray, Dec;
    AtFirst(buf, pos, Encode(Bulk(b)));
    BulkPayloadAt(buf, pos, b);
    CountLineAt(buf, pos + 1, |b|);
    assert ParseBulk(buf, pos + 1, true).Bad?;
  }

  lemma {:induction false} LongItemsAt(buf: Bytes, pos: nat, parts: seq<Bytes>)
    requires At(buf, pos, EncodeAll(Bulks(parts)))
    requires exists i :: 0 <= i < |parts| && BulkLen(|parts[i]|) > MAX_BUFFERED_FRAME_BYTES
    ensures ParseItems(buf, pos, 1, |parts|, true).Bad?
    decreases |parts|
  {
    hide ParseFrame, BulkLen, Encode;
    var items, rest := Bulks(parts), parts[1..];
    assert items[1..] == Bulks(rest) && items[0] == Bulk(parts[0]);
    AtSplit(buf, pos, Encode(items[0]), EncodeAll(items[1..]));
    if BulkLen(|parts[0]|) > MAX_BUFFERED_FRAME_BYTES {
      LongBulkAt(buf, pos, parts[0]);
    } else {
      BulkAt(buf, pos, 1, parts[0], true);
      var i :| 0 <= i < |parts| && BulkLen(|parts[i]|) > MAX_BUFFERED_FRAME_BYTES;
      assert rest[i - 1] == parts[i];
      LongItemsAt(buf, pos + |Encode(items[0])|, rest);
    }
  }

  lemma RefusedFrame(buf: Bytes, parts: seq<Bytes>)
    requires At(buf, 0, Encode(Request(parts))) && !RequestFits(parts)
    ensures var r := ParseFrame(buf, 0, 0, true);
      r.Bad? || (r.Done? && r.pos == |Encode(Request(parts))| > MAX_BUFFERED_FRAME_BYTES)
  {
    hide ReadLineInt, ParseItems, Dec, Encode, BulkLen;
    var f := Request(parts);
    ArrayPieces(buf, 0, f.items);
    CountLineAt(buf, 1, |parts|);
    if |parts| > MAX_ARRAY_LEN {
      assert ParseArray(buf, 1, 0, true).Bad?;
    } else if exists i :: 0 <= i < |parts| && BulkLen(|parts[i]|) > MAX_BUFFERED_FRAME_BYTES {
      LongItemsAt(buf, 1 + |Dec(|parts|)| + 2, parts);
      assert ParseArray(buf, 1, 0, true).Bad?;
    } else {
      BulksFit(parts);
      ParseFrameAt(buf, 0, 0, f, true);
    }
  }

  lemma BulksFit(parts: seq<Bytes>)
    requires |parts| <= MAX_ARRAY_LEN && forall i :: 0 <= i < |parts| ==> BulkLen(|parts[i]|) <= MAX_BUFFERED_FRAME_BYTES
    ensures Fits(Request(parts), 0, true)
  {
    hide BulkLen;
  }

  /** A printed request, whatever follows it, is parsed back if it has at most 1048576 items and 64 MiB,
      and is an error otherwise. */
  lemma WireRequest(parts: seq<Bytes>, rest: Bytes)
    ensures var r := Parse(Encode(Request(parts)) + rest, true);
      if RequestFits(parts) then r == Got(Request(parts), rest) else r.Fail?
  {
    hide Encode, Parse;
    if RequestFits(parts) {
      RequestIsWire(parts);
      ParseWire(Request(parts), rest, true);
    } else {
      RequestRefused(parts, rest);
    }
  }

  lemma RequestRefused(parts: seq<Bytes>, rest: Bytes)
    requires !RequestFits(parts)
    ensures Parse(Encode(Request(parts)) + rest, true).Fail?
  {
    hide Encode, ParseFrame, RequestFits;
    var buf := Encode(Request(parts)) + rest;
    EncodeTag(Request(parts));
    assert At(buf, 0, Encode(Request(parts))) && buf[0] == Encode(Request(parts))[0];
    RefusedFrame(buf, parts);
  }

  // ---- lists of requests ----

  ghost predicate IsRequest(f: Frame) {
    exists parts :: f == Request(parts)
  }

  ghost predicate AllRequests(fs: seq<Frame>) {
    forall i :: 0 <= i < |fs| ==> IsRequest(fs[i])
  }

  lemma RequestParses(f: Frame, rest: Bytes)
    requires IsRequest(f)
    ensures if Wire(f) then Parse(Encode(f) + rest, true) == Got(f, rest) else Parse(Encode(f) + rest, true).Fail?
  {
    hide Wire, Encode, Parse, RequestFits;
    var parts :| f == Request(parts);
    RequestIsWire(parts);
    WireRequest(parts, rest);
  }

  /** How many leading frames can be read back. */
  function Readable(fs: seq<Frame>): (n: nat)
    ensures n <= |fs| && (forall i :: 0 <= i < n ==> Wire(fs[i]))
    ensures n < |fs| ==> !Wire(fs[n])
  {
    if fs == [] || !Wire(fs[0]) then 0 else 1 + Readable(fs[1..])
  }

  /** A printed list of requests parses up to the first that is too long, and no further. */
  lemma {:induction false} RequestsDrain(fs: seq<Frame>)
    requires AllRequests(fs)
    ensures var d := Drain(EncodeAll(fs), true);
      d.frames == fs[..Readable(fs)] && d.rest == [] && (d.failure.None? <==> AllWire(fs))
    decreases |fs|
  {
    hide Wire, Encode, Parse, IsRequest;
    if fs == [] {
      ParseNothing();
    } else {
      var rest := EncodeAll(fs[1..]);
      assert IsRequest(fs[0]);
      RequestParses(fs[0], rest);
      if Wire(fs[0]) {
        DrainCons(Encode(fs[0]) + rest, fs[0], rest, true);
        RequestsDrain(fs[1..]);
      }
    }
  }

  // ---- printing takes no more bytes than were read ----

  lemma {:induction false} DigitsBelowPow(s: Bytes)
    requires AllDigits(s)
    ensures DigitsValue(s) < Pow10(|s|)
  {
    if s != [] {
      DigitsBelowPow(s[..|s| - 1]);
    }
  }

  /** A number prints in no more characters than it was read from. */
  lemma IntText(s: Bytes)
    requires ParseI64(s).Some?
    ensures |DecInt(ParseI64(s).value)| <= |s|
  {
    var digits := if s[0] == '-' || s[0] == '+' then s[1..] else s;
    DigitsBelowPow(digits);
    DecLenBelowPow(DigitsValue(digits), |digits|);
  }

  lemma TextLength(buf: Bytes, pos: nat)
    requires pos <= |buf|
    ensures var r := ReadLineString(buf, pos, true); r.Done? ==> |r.value| + 2 == r.pos - pos
    ensures var r := ReadLineInt(buf, pos, true); r.Done? ==> |DecInt(r.value)| + 2 <= r.pos - pos
  {
    hide ParseI64, DecInt;
    var line := ReadLine(buf, pos, true);
    if line.Done? && ParseI64(line.value).Some? {
      IntText(line.value);
    }
  }

  lemma LeafLength(buf: Bytes, pos: nat, depth: nat)
    requires pos < |buf| && buf[pos] != '*' && ParseFrame(buf, pos, depth, true).Done?
    ensures var r := ParseFrame(buf, pos, depth, true); |Encode(r.value)| <= r.pos - pos
  {
    hide ReadLineInt, ReadLineString, Dec, BulkFrameFits;
    TextLength(buf, pos + 1);
    NullText();
  }

  lemma {:induction false} FrameLength(buf: Bytes, pos: nat, depth: nat)
    requires pos <= |buf| && ParseFrame(buf, pos, depth, true).Done?
    ensures var r := ParseFrame(buf, pos, depth, true); |Encode(r.value)| <= r.pos - pos
    ensures var f := ParseFrame(buf, pos, depth, true).value; f.Array? ==> |f.items| <= MAX_ARRAY_LEN
    decreases |buf| - pos, 0, 0
  {
    hide ParseItems, ReadLineInt, Dec;
    if buf[pos] == '*' {
      var line := ReadLineInt(buf, pos + 1, true);
      TextLength(buf, pos + 1);
      NullText();
      if line.value != -1 {
        ItemsLength(buf, line.pos, depth + 1, line.value);
      }
    } else {
      LeafLength(buf, pos, depth);
    }
  }

  lemma {:induction false} ItemsLength(buf: Bytes, pos: nat, depth: nat, count: nat)
    requires pos <= |buf| && ParseItems(buf, pos, depth, count, true).Done?
    ensures var r := ParseItems(buf, pos, depth, count, true); |EncodeAll(r.value)| <= r.pos - pos
    decreases |buf| - pos, 1, count
  {
    hide ParseFrame, Encode;
    if count > 0 {
      var first := ParseFrame(buf, pos, depth, true);
      FrameLength(buf, pos, depth);
      ItemsLength(buf, first.pos, depth, count - 1);
      var rest := ParseItems(buf, first.pos, depth, count - 1, true).value;
      assert ([first.value] + rest)[1..] == rest;
    }
  }

  // Inline commands are short: a line has at most 1 MiB.

  function TotalLen(args: seq<Bytes>): nat {
    if args == [] then 0 else |args[0]| + TotalLen(args[1..])
  }

  lemma {:induction false} QuotedLength(line: Bytes, i: nat, out: Bytes, quote: char)
    requires i <= |line|
    ensures var r := ReadQuoted(line, i, out, quote); r.Some? ==> |r.value.0| - |out| <= r.value.1 - i
    decreases |line| - i
  {
    if i < |line| && line[i] != quote {
      if line[i] != '\\' {
        QuotedLength(line, i + 1, out + [line[i]], quote);
      } else if i + 1 < |line| {
        var (bytes, next) := Unescape(line, i + 1, quote);
        QuotedLength(line, next, out + bytes, quote);
      }
    }
  }

  lemma {:induction false} ArgLength(line: Bytes, i: nat, arg: Bytes)
    requires i <= |line|
    ensures var r := ReadArg(line, i, arg); r.Some? ==> |r.value.0| - |arg| <= r.value.1 - i
    decreases |line| - i
  {
    hide ReadQuoted;
    if i < |line| && !IsInlineSpace(line[i]) {
      if line[i] == '\'' || line[i] == '"' {
        QuotedLength(line, i + 1, arg, line[i]);
        var quoted := ReadQuoted(line, i + 1, arg, line[i]);
        if quoted.Some? {
          ArgLength(line, quoted.value.1, quoted.value.0);
        }
      } else if line[i] == '\\' {
        if i + 1 < |line| {
          ArgLength(line, i + 2, arg + [line[i + 1]]);
        }
      } else {
        ArgLength(line, i + 1, arg + [line[i]]);
      }
    }
  }

  lemma {:induction false} ArgsLength(line: Bytes, i: nat)
    requires i <= |line|
    ensures var r := SplitArgs(line, i); r.Some? ==> TotalLen(r.value) <= |line| - i && |r.value| <= |line| - i
    decreases |line| - i
  {
    hide ReadArg;
    var start := SkipSpaces(line, i);
    if start < |line| {
      ArgLength(line, start, []);
      var arg := ReadArg(line, start, []);
      if arg.Some? {
        ArgsLength(line, arg.value.1);
      }
    }
  }

  lemma {:induction false} PartsBelow(parts: seq<Bytes>)
    requires TotalLen(parts) <= USIZE_MAX
    ensures PartsLen(parts) <= TotalLen(parts) + 25 * |parts|
  {
    if parts != [] {
      DecLenUsize(|parts[0]|);
      PartsBelow(parts[1..]);
    }
  }

  lemma InlineLength(buf: Bytes)
    requires ParseInline(buf).CommandLine?
    ensures var f := ParseInline(buf).frame;
      f.Array? && |f.items| <= MAX_ARRAY_LEN && |Encode(f)| <= MAX_BUFFERED_FRAME_BYTES - 22
  {
    hide Encode, SplitArgs, Dec;
    var line := ChompCr(buf[..FindLf(buf, 0).value]);
    var args := SplitArgs(line, 0).value;
    ArgsLength(line, 0);
    PartsBelow(args);
    RequestLenIs(args);
    DecLenUsize(|args|);
  }

  /** What was received prints in no more bytes than it came in, blank lines not counted; inline
      commands stay far below the limit. */
  lemma ReceivedLength(buf: Bytes)
    requires Parse(buf, true).Got?
    ensures var Got(f, rest) := Parse(buf, true);
      && (f.Array? ==> |f.items| <= MAX_ARRAY_LEN)
      && |Encode(f)| <= (if |SkipBlanks(buf)| - |rest| <= MAX_BUFFERED_FRAME_BYTES - 22 then MAX_BUFFERED_FRAME_BYTES - 22
                         else |SkipBlanks(buf)| - |rest|)
  {
    hide ParseFrame, Encode, ParseInline;
    var s := SkipBlanks(buf);
    ParseSkipsBlanks(buf, true);
    SkipBlanksExtend(buf, []);
    assert buf + [] == buf && s + [] == s;
    if IsRespType(s[0]) {
      FrameLength(s, 0, 0);
    } else {
      InlineLength(s);
    }
  }

  // ---- the log form against the request ----

  lemma {:induction false} PairUpUnpairs(args: seq<Bytes>)
    requires |args| % 2 == 0
    ensures Unpair(PairUp(args)) == args
  {
    if args != [] {
      PairUpUnpairs(args[2..]);
      assert args == [args[0], args[1]] + args[2..];
    }
  }

  /** A deadline takes at most 19 digits where the request had at least one. */
  lemma DeadlineGrowth(text: Bytes, n: int, deadline: Millis)
    requires DecodeInt(text) == Ok(n) && deadline <= I64_MAX
    ensures BulkLen(|Dec(deadline)|) <= BulkLen(|text|) + 19
  {
    hide Dec, AllDigits, DigitsValue;
    assert text != [];
    DecLenI64(deadline);
    BulkLenMonotone(|Dec(deadline)|, 19);
    BulkLenMonotone(1, |text|);
    assert BulkLen(1) == 7 && BulkLen(19) == 26 by { TwoLens(); }
  }

  lemma TwoLens()
    ensures BulkLen(1) == 7 && BulkLen(19) == 26
    ensures BulkLen(2) == 8 && BulkLen(4) == 10 && BulkLen(6) == 12 && BulkLen(9) == 15
  {
    assert |Dec(19)| == 2;
  }

  /** The log form has no more items than the request and at most 22 bytes more. */
  predicate Grows(logged: seq<Bytes>, args: seq<Bytes>, verb: Verb) {
    |logged| <= 1 + |args| && PartsLen(logged) <= BulkLen(|VerbName(verb)|) + PartsLen(args) + 22
  }

  lemma SameParts(verb: Verb, args: seq<Bytes>, logged: seq<Bytes>)
    requires logged == [VerbName(verb)] + args
    ensures Grows(logged, args, verb)
  {
    hide VerbName, BulkLen;
    assert logged[0] == VerbName(verb) && logged[1..] == args;
  }

  lemma {:induction false} PartsLenAppend(a: seq<Bytes>, b: seq<Bytes>)
    ensures PartsLen(a + b) == PartsLen(a) + PartsLen(b)
  {
    hide BulkLen;
    if a == [] {
      assert a + b == b;
    } else {
      assert (a + b)[0] == a[0] && (a + b)[1..] == a[1..] + b;
      PartsLenAppend(a[1..], b);
    }
  }

  lemma OnePart(x: Bytes)
    ensures PartsLen([x]) == BulkLen(|x|)
  {
    assert [x][1..] == [];
  }

  /** Only the last part differs. */
  lemma LastPart(verb: Verb, args: seq<Bytes>, name: Bytes, last: Bytes, n: nat)
    requires args != [] && BulkLen(|name|) <= BulkLen(|VerbName(verb)|) + (22 - n) && n <= 22
    requires BulkLen(|last|) <= BulkLen(|args[|args| - 1]|) + n
    ensures Grows([name] + args[..|args| - 1] + [last], args, verb)
  {
    hide VerbName, BulkLen, PartsLen;
    var init := args[..|args| - 1];
    assert args == init + [args[|args| - 1]];
    PartsLenAppend(init, [args[|args| - 1]]);
    PartsLenAppend([name] + init, [last]);
    PartsLenAppend([name], init);
    OnePart(name);
    OnePart(last);
    OnePart(args[|args| - 1]);
  }

  lemma PairsGrow(verb: Verb, args: seq<Bytes>, now: Millis, at: Millis)
    requires verb in {MSET, HSET} && Decode(verb, args, now).Ok?
    ensures var parts := Decode(verb, args, now).value.AofParts(at); parts.Some? && Grows(parts.value, args, verb)
  {
    hide Grows, Unpair, PairUp;
    var parts := Decode(verb, args, now).value.AofParts(at).value;
    if verb == MSET {
      PairUpUnpairs(args);
    } else {
      PairUpUnpairs(args[1..]);
    }
    assert parts == [VerbName(verb)] + args;
    SameParts(verb, args, parts);
  }

  lemma PlainGrows(verb: Verb, args: seq<Bytes>, now: Millis, at: Millis)
    requires verb in {DEL, APPEND, PERSIST, INCR, DECR, LPUSH, RPUSH, HDEL}
    requires Decode(verb, args, now).Ok?
    ensures var parts := Decode(verb, args, now).value.AofParts(at); parts.Some? && Grows(parts.value, args, verb)
  {
    hide Grows, Unpair, PairUp;
    var parts := Decode(verb, args, now).value.AofParts(at).value;
    assert parts == [VerbName(verb)] + args;
    SameParts(verb, args, parts);
  }

  lemma NumberGrows(verb: Verb, args: seq<Bytes>, now: Millis, at: Millis)
    requires verb in {INCRBY, DECRBY, HINCRBY, LPOP, RPOP}
    requires Decode(verb, args, now).Ok?
    ensures var parts := Decode(verb, args, now).value.AofParts(at); parts.Some? && Grows(parts.value, args, verb)
  {
    hide Grows, Dec, ParseI64, BulkLen;
    var parts := Decode(verb, args, now).value.AofParts(at).value;
    if (verb == LPOP || verb == RPOP) && |args| == 1 {
      assert parts == [VerbName(verb)] + args;
      SameParts(verb, args, parts);
    } else {
      var text := args[|args| - 1];
      var n := DecodeInt(text).value;
      IntText(text);
      BulkLenMonotone(|DecInt(n)|, |text|);
      assert parts == [VerbName(verb)] + args[..|args| - 1] + [DecInt(n)];
      LastPart(verb, args, VerbName(verb), DecInt(n), 0);
    }
  }

  lemma ExpiryGrows(verb: Verb, args: seq<Bytes>, now: Millis, at: Millis)
    requires verb in {EXPIRE, PEXPIRE, EXPIREAT, PEXPIREAT}
    requires Decode(verb, args, now).Ok?
    ensures var parts := Decode(verb, args, now).value.AofParts(at); parts.Some? && Grows(parts.value, args, verb)
  {
    hide Grows, Dec, ParseI64, DecodeInt, BulkLen, ExpireRelativeDeadline, ExpireAbsoluteDeadline;
    var c := Decode(verb, args, now).value;
    var n := DecodeInt(args[1]).value;
    DeadlineGrowth(args[1], n, c.deadline);
    assert c.AofParts(at).value == ["PEXPIREAT"] + args[..1] + [Dec(c.deadline)];
    TwoLens();
    BulkLenMonotone(6, |VerbName(verb)|);
    LastPart(verb, args, "PEXPIREAT", Dec(c.deadline), 19);
  }

  lemma SetGrows(args: seq<Bytes>, now: Millis, at: Millis)
    requires DecodeSet(args, now).Ok?
    ensures var parts := DecodeSet(args, now).value.AofParts(at); parts.Some? && Grows(parts.value, args, SET)
  {
    hide Grows, Dec, ParseI64, DecodeInt, BulkLen, SetOptionDeadline;
    var c := DecodeSet(args, now).value;
    var parts := c.AofParts(at).value;
    if |args| == 2 {
      assert parts == [VerbName(SET)] + args;
      SameParts(SET, args, parts);
    } else {
      SetHasOneOption(args, now);
      var n := DecodeInt(args[3]).value;
      var d := c.expiresAt.value;
      var shown := if d <= MAX_EXPIRE_AT_MS then d else RelativeMillis(d, at);
      DeadlineGrowth(args[3], n, shown);
      SetPartsGrow(args, if d <= MAX_EXPIRE_AT_MS then "PXAT" else "PX", Dec(shown));
      assert parts == ["SET", args[0], args[1], if d <= MAX_EXPIRE_AT_MS then "PXAT" else "PX", Dec(shown)];
    }
  }

  lemma SetHasOneOption(args: seq<Bytes>, now: Millis)
    requires |args| > 2 && DecodeSet(args, now).Ok?
    ensures |args| == 4 && 2 <= |args[2]| && DecodeInt(args[3]).Ok? && DecodeSet(args, now).value.expiresAt.Some?
  {
    hide ParseI64, SetOptionDeadline, DecodeInt;
    var option := Upper(args[2]);
    assert option in ["EX", "PX", "EXAT", "PXAT"];
    var deadline := SetOptionDeadline(option, DecodeInt(args[3]).value, now).value;
    assert SetOptions(args, 4, Some(deadline), now).Ok?;
  }

  lemma SetPartsGrow(args: seq<Bytes>, option: Bytes, number: Bytes)
    requires |args| == 4 && 2 <= |args[2]| && |option| <= 4 && BulkLen(|number|) <= BulkLen(|args[3]|) + 19
    ensures Grows(["SET", args[0], args[1], option, number], args, SET)
  {
    hide BulkLen;
    TwoLens();
    BulkLenMonotone(|option|, 4);
    BulkLenMonotone(2, |args[2]|);
    var logged := ["SET", args[0], args[1], option, number];
    FiveParts(logged);
    FourParts(args);
  }

  lemma TailParts(p: seq<Bytes>, i: nat)
    requires i < |p|
    ensures PartsLen(p[i..]) == BulkLen(|p[i]|) + PartsLen(p[i + 1..])
    ensures p[0..] == p && PartsLen(p[|p|..]) == 0
  {
    hide BulkLen;
    assert p[i..][1..] == p[i + 1..];
  }

  lemma FourParts(p: seq<Bytes>)
    requires |p| == 4
    ensures PartsLen(p) == BulkLen(|p[0]|) + BulkLen(|p[1]|) + BulkLen(|p[2]|) + BulkLen(|p[3]|)
  {
    hide BulkLen, PartsLen;
    TailParts(p, 0);
    TailParts(p, 1);
    TailParts(p, 2);
    TailParts(p, 3);
  }

  lemma FiveParts(p: seq<Bytes>)
    requires |p| == 5
    ensures PartsLen(p) == BulkLen(|p[0]|) + BulkLen(|p[1]|) + BulkLen(|p[2]|) + BulkLen(|p[3]|) + BulkLen(|p[4]|)
  {
    hide BulkLen, PartsLen;
    TailParts(p, 0);
    FourParts(p[1..]);
  }

  lemma DecodeGrows(verb: Verb, args: seq<Bytes>, now: Millis, at: Millis)
    requires verb != OTHER && Decode(verb, args, now).Ok? && Decode(verb, args, now).value.IsWrite()
    ensures var parts := Decode(verb, args, now).value.AofParts(at); parts.Some? && Grows(parts.value, args, verb)
  {
    hide Grows, DecodeSet, Command.AofParts;
    WritingVerbs(verb, args, now);
    if verb == SET {
      SetGrows(args, now, at);
    } else if verb in {EXPIRE, PEXPIRE, EXPIREAT, PEXPIREAT} {
      ExpiryGrows(verb, args, now, at);
    } else if verb in {INCRBY, DECRBY, HINCRBY, LPOP, RPOP} {
      NumberGrows(verb, args, now, at);
    } else if verb in {MSET, HSET} {
      PairsGrow(verb, args, now, at);
    } else {
      PlainGrows(verb, args, now, at);
    }
  }

  lemma WritingVerbs(verb: Verb, args: seq<Bytes>, now: Millis)
    requires verb != OTHER && Decode(verb, args, now).Ok? && Decode(verb, args, now).value.IsWrite()
    ensures verb in {SET, EXPIRE, PEXPIRE, EXPIREAT, PEXPIREAT, INCRBY, DECRBY, HINCRBY, LPOP, RPOP,
                     DEL, MSET, APPEND, PERSIST, INCR, DECR, LPUSH, RPUSH, HSET, HDEL}
  {
    if verb in {HGET, HKEYS, HVALS, HGETALL, HEXISTS, HLEN, SUBSCRIBE, UNSUBSCRIBE, PUBLISH, INFO, BGREWRITEAOF} {
      OtherVerbs(verb, args, now);
    }
  }

  lemma OtherVerbs(verb: Verb, args: seq<Bytes>, now: Millis)
    requires verb in {HGET, HKEYS, HVALS, HGETALL, HEXISTS, HLEN, SUBSCRIBE, UNSUBSCRIBE, PUBLISH, INFO, BGREWRITEAOF}
    requires Decode(verb, args, now).Ok?
    ensures !Decode(verb, args, now).value.IsWrite()
  {
    hide ParseI64, DecodeInt;
  }

  /** What a decoded request was made of. */
  lemma DecodedFrom(f: Frame, now: Millis) returns (name: Bytes, args: seq<Bytes>)
    requires FromFrame(f, now).Ok? && !FromFrame(f, now).value.Unknown?
    ensures f == Request([name] + args)
    ensures var verb := VerbOf(Upper(name)); verb != OTHER && Decode(verb, args, now) == FromFrame(f, now)
  {
    hide Decode, VerbOf;
    name, args := f.items[0].data, ExpectBulks(f.items, 1).value;
    BulksExpected(f.items, 1);
    assert f.items == [Bulk(name)] + f.items[1..] && Bulks([name] + args) == [Bulk(name)] + Bulks(args);
  }

  lemma {:induction false} BulksExpected(items: seq<Frame>, i: nat)
    requires i <= |items| && ExpectBulks(items, i).Ok?
    ensures items[i..] == Bulks(ExpectBulks(items, i).value)
    decreases |items| - i
  {
    if i < |items| {
      BulksExpected(items, i + 1);
      assert items[i..] == [items[i]] + items[i + 1..];
      var rest := ExpectBulks(items, i + 1).value;
      assert Bulks([items[i].data] + rest) == [Bulk(items[i].data)] + Bulks(rest);
    }
  }

  /** The log form of a write has no more items than its request and at most 22 bytes more. */
  lemma LogGrowth(f: Frame, c: Command, now: Millis, at: Millis)
    requires FromFrame(f, now) == Ok(c) && c.IsWrite()
    ensures f.Array? && c.AofParts(at).Some?
    ensures |c.AofParts(at).value| <= |f.items|
    ensures |Encode(Request(c.AofParts(at).value))| <= |Encode(f)| + 22
  {
    hide FromFrame, Decode, VerbOf, Encode, Command.AofParts, BulkLen;
    var name, args := DecodedFrom(f, now);
    var verb := VerbOf(Upper(name));
    DecodeGrows(verb, args, now, at);
    TableName(Upper(name));
    var logged := c.AofParts(at).value;
    RequestLenIs(logged);
    RequestLenIs([name] + args);
    PartsLenAppend([name], args);
    OnePart(name);
    DecLenMonotone(|logged|, |[name] + args|);
  }

  /** The command table finds each verb under its name. */
  lemma TableName(name: Bytes)
    ensures VerbOf(name) != OTHER ==> VerbName(VerbOf(name)) == name
  {
    hide VerbOf, VerbName;
    if |name| == 4 {
      FourLetterName(name);
    } else {
      OtherName(name);
    }
  }

  lemma FourLetterName(name: Bytes)
    requires |name| == 4
    ensures VerbOf(name) != OTHER ==> VerbName(VerbOf(name)) == name
  {
    match VerbOf(name)
    case PING => assert name == "PING";
    case ECHO => assert name == "ECHO";
    case INCR => assert name == "INCR";
    case DECR => assert name == "DECR";
    case MGET => assert name == "MGET";
    case MSET => assert name == "MSET";
    case PTTL => assert name == "PTTL";
    case LPOP => assert name == "LPOP";
    case RPOP => assert name == "RPOP";
    case LLEN => assert name == "LLEN";
    case HSET => assert name == "HSET";
    case HGET => assert name == "HGET";
    case HDEL => assert name == "HDEL";
    case HLEN => assert name == "HLEN";
    case INFO => assert name == "INFO";
    case _ =>
  }

  lemma OtherName(name: Bytes)
    requires |name| != 4
    ensures VerbOf(name) != OTHER ==> VerbName(VerbOf(name)) == name
  {
    match VerbOf(name)
    case GET => assert name == "GET";
    case SET => assert name == "SET";
    case DEL => assert name == "DEL";
    case TTL => assert name == "TTL";
    case LPUSH => assert name == "LPUSH";
    case RPUSH => assert name == "RPUSH";
    case HKEYS => assert name == "HKEYS";
    case HVALS => assert name == "HVALS";
    case EXISTS => assert name == "EXISTS";
    case INCRBY => assert name == "INCRBY";
    case DECRBY => assert name == "DECRBY";
    case APPEND => assert name == "APPEND";
    case STRLEN => assert name == "STRLEN";
    case EXPIRE => assert name == "EXPIRE";
    case LRANGE => assert name == "LRANGE";
    case LINDEX => assert name == "LINDEX";
    case PEXPIRE => assert name == "PEXPIRE";
    case PERSIST => assert name == "PERSIST";
    case HGETALL => assert name == "HGETALL";
    case HEXISTS => assert name == "HEXISTS";
    case HINCRBY => assert name == "HINCRBY";
    case PUBLISH => assert name == "PUBLISH";
    case EXPIREAT => assert name == "EXPIREAT";
    case PEXPIREAT => assert name == "PEXPIREAT";
    case SUBSCRIBE => assert name == "SUBSCRIBE";
    case UNSUBSCRIBE => assert name == "UNSUBSCRIBE";
    case BGREWRITEAOF => assert name == "BGREWRITEAOF";
    case _ =>
  }

  /** Every write that came in at least 22 bytes below 64 MiB has a log form that can be read back. */
  lemma ShortRequestsAreLoggable(buf: Bytes, c: Command, now: Millis, at: Millis)
    requires Parse(buf, true).Got? && FromFrame(Parse(buf, true).frame, now) == Ok(c) && c.IsWrite()
    requires |SkipBlanks(buf)| - |Parse(buf, true).rest| <= MAX_BUFFERED_FRAME_BYTES - 22
    ensures c.AofFrame(at).Some? && Wire(c.AofFrame(at).value)
  {
    hide Parse, FromFrame, Encode, Wire, Command.AofParts;
    var f := Parse(buf, true).frame;
    ReceivedLength(buf);
    LogGrowth(f, c, now, at);
    RequestIsWire(c.AofParts(at).value);
  }

  lemma SharpDecodes(key: Bytes, deadline: Millis)
    requires 1000 <= deadline <= MAX_EXPIRE_AT_MS
    ensures FromFrame(Request(["EXPIRE", key, "1"]), deadline - 1000) == Ok(Expire(key, deadline))
  {
    hide FromFrame, VerbOf, ParseI64;
    var args := [key, "1"];
    assert ["EXPIRE", key, "1"] == ["EXPIRE"] + args;
    Codec.RequestDecodes(EXPIRE, args, deadline - 1000);
    assert DecodeInt("1") == Ok(1) by { ParseDecInt(1); }
  }

  lemma SharpLengths(key: Bytes, deadline: Millis)
    requires 1000000000000000000 <= deadline <= MAX_EXPIRE_AT_MS
    ensures |Encode(Request(["PEXPIREAT", key, Dec(deadline)]))| == |Encode(Request(["EXPIRE", key, "1"]))| + 22
  {
    hide Dec, BulkLen, Encode;
    var logged, request := ["PEXPIREAT", key, Dec(deadline)], ["EXPIRE", key, "1"];
    TwoLens();
    NineteenDigits(deadline);
    RequestLenIs(logged);
    RequestLenIs(request);
    ThreeParts(logged);
    ThreeParts(request);
  }

  /** The bound is sharp: `EXPIRE key 1` grows by 22 bytes when it arrives one second before a deadline
      of 19 digits. */
  lemma SharpGrowth(key: Bytes, deadline: Millis, at: Millis)
    requires 1000000000000000000 <= deadline <= MAX_EXPIRE_AT_MS
    ensures var request, c := Request(["EXPIRE", key, "1"]), Expire(key, deadline);
      && FromFrame(request, deadline - 1000) == Ok(c)
      && c.AofParts(at).Some? && |Encode(Request(c.AofParts(at).value))| == |Encode(request)| + 22
  {
    hide Dec, Encode, FromFrame;
    SharpDecodes(key, deadline);
    SharpLengths(key, deadline);
  }

  lemma ThreeParts(p: seq<Bytes>)
    requires |p| == 3
    ensures PartsLen(p) == BulkLen(|p[0]|) + BulkLen(|p[1]|) + BulkLen(|p[2]|)
  {
    hide BulkLen, PartsLen;
    TailParts(p, 0);
    TailParts(p, 1);
    TailParts(p, 2);
  }
}
