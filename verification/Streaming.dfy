/** The parser does not depend on how its input was cut into reads. */
module Streaming {
  import opened Base
  import opened Limits
  import opened Frames
  import opened Parser

  /** How a parse of the first `n` bytes (`part`) relates to the same parse of the whole buffer
      (`whole`), given the whole buffer's parse with the line limit on every line (`strict`). */
  ghost predicate Local<T>(part: Parsed<T>, whole: Parsed<T>, strict: Parsed<T>, n: nat) {
    // A result or an error on the part is final, except the limit on an unterminated line.
    && (part.Done? ==> whole == part && part.pos <= n)
    && (part.Bad? && part.reason != LongLine ==> whole == part)
    // The part is enough for whatever the whole buffer yields inside it.
    && (whole.Done? && whole.pos <= n ==> part == whole)
    // The unterminated-line limit can only fire where the strict parser refuses the line.
    && (part == Bad(LongLine) ==> strict == Bad(LongLine))
    && Stricter(strict, whole)
  }

  predicate Stricter<T(==)>(strict: Parsed<T>, whole: Parsed<T>) {
    strict == whole || strict == Bad(LongLine)
  }

  lemma ReadLineLocal(buf: Bytes, n: nat, pos: nat)
    requires pos <= n <= |buf|
    ensures Local(ReadLine(buf[..n], pos, true), ReadLine(buf, pos, true), ReadLine(buf, pos, false), n)
  {
    hide ParseI64;
    var part := buf[..n];
    assert forall j: nat :: IsCrlf(part, j) <==> j + 1 < n && IsCrlf(buf, j);
    var p, w := FindCrlf(part, pos), FindCrlf(buf, pos);
    if p.Some? {
      assert IsCrlf(buf, p.value);
      assert w == p;
      assert part[pos..p.value] == buf[pos..p.value];
    } else if w.Some? {
      assert w.value + 1 >= n;
    }
  }

  lemma ReadLineStringLocal(buf: Bytes, n: nat, pos: nat)
    requires pos <= n <= |buf|
    ensures Local(ReadLineString(buf[..n], pos, true), ReadLineString(buf, pos, true), ReadLineString(buf, pos, false), n)
  {
    hide ReadLine, FindCrlf;
    ReadLineLocal(buf, n, pos);
  }

  lemma ReadLineIntLocal(buf: Bytes, n: nat, pos: nat)
    requires pos <= n <= |buf|
    ensures Local(ReadLineInt(buf[..n], pos, true), ReadLineInt(buf, pos, true), ReadLineInt(buf, pos, false), n)
  {
    hide ReadLine, ParseI64, FindCrlf;
    ReadLineLocal(buf, n, pos);
  }

  lemma PayloadLocal(buf: Bytes, n: nat, start: nat, len: nat)
    requires start + len + 2 <= n <= |buf|
    ensures buf[..n][start..start + len] == buf[start..start + len]
    ensures IsCrlf(buf[..n], start + len) == IsCrlf(buf, start + len)
  {
  }

  lemma ParseBulkLocal(buf: Bytes, n: nat, pos: nat)
    requires pos <= n <= |buf|
    ensures Local(ParseBulk(buf[..n], pos, true), ParseBulk(buf, pos, true), ParseBulk(buf, pos, false), n)
  {
    hide ReadLineInt, BulkFrameFits;
    ReadLineIntLocal(buf, n, pos);
    var line := ReadLineInt(buf, pos, true);
    if line.Done? && line.value >= 0 && line.pos + line.value + 2 <= n {
      PayloadLocal(buf, n, line.pos, line.value);
    }
  }

  lemma {:induction false} ParseFrameLocal(buf: Bytes, n: nat, pos: nat, depth: nat)
    requires pos <= n <= |buf|
    ensures Local(ParseFrame(buf[..n], pos, depth, true), ParseFrame(buf, pos, depth, true),
                  ParseFrame(buf, pos, depth, false), n)
    decreases |buf| - pos, 0, 0
  {
    hide ParseArray, ParseBulk, ReadLineString;
    if depth > MAX_NESTING_DEPTH {
    } else if pos == n {
      ParseFrameLaxity(buf, pos, depth);
    } else {
      assert buf[..n][pos] == buf[pos];
      if buf[pos] == '*' {
        ParseArrayLocal(buf, n, pos + 1, depth);
      } else {
        ParseLeafLocal(buf, n, pos, depth);
      }
    }
  }

  lemma ParseLeafLocal(buf: Bytes, n: nat, pos: nat, depth: nat)
    requires pos < n <= |buf| && depth <= MAX_NESTING_DEPTH && buf[pos] != '*'
    ensures Local(ParseFrame(buf[..n], pos, depth, true), ParseFrame(buf, pos, depth, true),
                  ParseFrame(buf, pos, depth, false), n)
  {
    hide ParseArray, ParseBulk, ReadLineString, ReadLineInt;
    assert buf[..n][pos] == buf[pos];
    if buf[pos] == '$' {
      ParseBulkLocal(buf, n, pos + 1);
    } else if buf[pos] == ':' {
      ReadLineIntLocal(buf, n, pos + 1);
    } else if buf[pos] == '+' {
      ReadLineStringLocal(buf, n, pos + 1);
    } else if buf[pos] == '-' {
      ReadLineStringLocal(buf, n, pos + 1);
    }
  }

  lemma {:induction false} ParseArrayLocal(buf: Bytes, n: nat, pos: nat, depth: nat)
    requires pos <= n <= |buf|
    ensures Local(ParseArray(buf[..n], pos, depth, true), ParseArray(buf, pos, depth, true),
                  ParseArray(buf, pos, depth, false), n)
    decreases |buf| - pos, 2, 0
  {
    hide ReadLineInt, ParseItems, ParseFrame;
    ReadLineIntLocal(buf, n, pos);
    var line := ReadLineInt(buf, pos, true);
    if line.Done? && 0 <= line.value <= MAX_ARRAY_LEN {
      if line.pos <= n {
        ParseItemsLocal(buf, n, line.pos, depth + 1, line.value);
      } else {
        ParseItemsLaxity(buf, line.pos, depth + 1, line.value);
      }
    }
  }

  lemma {:induction false} ParseItemsLocal(buf: Bytes, n: nat, pos: nat, depth: nat, count: nat)
    requires pos <= n <= |buf|
    ensures Local(ParseItems(buf[..n], pos, depth, count, true), ParseItems(buf, pos, depth, count, true),
                  ParseItems(buf, pos, depth, count, false), n)
    decreases |buf| - pos, 1, count
  {
    hide ParseFrame;
    if count > 0 {
      ParseFrameLocal(buf, n, pos, depth);
      var first := ParseFrame(buf, pos, depth, true);
      if first.Done? {
        if first.pos <= n {
          ParseItemsLocal(buf, n, first.pos, depth, count - 1);
        } else {
          ParseItemsLaxity(buf, first.pos, depth, count - 1);
        }
      }
    }
  }

  // The strict parser only ever differs by refusing a long line.

  lemma {:induction false} ParseFrameLaxity(buf: Bytes, pos: nat, depth: nat)
    requires pos <= |buf|
    ensures Stricter(ParseFrame(buf, pos, depth, false), ParseFrame(buf, pos, depth, true))
    decreases |buf| - pos, 0, 0
  {
    hide ParseArray;
    if depth <= MAX_NESTING_DEPTH && pos < |buf| {
      match buf[pos]
      case '*' => ParseArrayLaxity(buf, pos + 1, depth);
      case _ =>
    }
  }

  lemma {:induction false} ParseArrayLaxity(buf: Bytes, pos: nat, depth: nat)
    requires pos <= |buf|
    ensures Stricter(ParseArray(buf, pos, depth, false), ParseArray(buf, pos, depth, true))
    decreases |buf| - pos, 2, 0
  {
    hide ParseItems;
    var line := ReadLineInt(buf, pos, true);
    if line.Done? && 0 <= line.value <= MAX_ARRAY_LEN {
      ParseItemsLaxity(buf, line.pos, depth + 1, line.value);
    }
  }

  lemma {:induction false} ParseItemsLaxity(buf: Bytes, pos: nat, depth: nat, count: nat)
    requires pos <= |buf|
    ensures Stricter(ParseItems(buf, pos, depth, count, false), ParseItems(buf, pos, depth, count, true))
    decreases |buf| - pos, 1, count
  {
    hide ParseFrame;
    if count > 0 {
      ParseFrameLaxity(buf, pos, depth);
      var first := ParseFrame(buf, pos, depth, true);
      if first.Done? {
        ParseItemsLaxity(buf, first.pos, depth, count - 1);
      }
    }
  }

  // ---- whole buffers ----

  /** What the parse of a buffer says about the parse of every extension of it by `b`. */
  ghost predicate Extends(part: Outcome, b: Bytes, whole: Outcome, strict: Outcome) {
    && (part.Got? ==> whole == Got(part.frame, part.rest + b))
    && (part.NeedMore? ==> whole == Parse(part.rest + b, true) && strict == Parse(part.rest + b, false))
    && (part.NeedMore? && |part.rest| > MAX_BUFFERED_FRAME_BYTES ==> !whole.Got?)
    && (part.Fail? && part.reason != LongLine ==> whole == part)
    && (part == Fail(LongLine) ==> strict == part)
    && (strict == whole || strict == Fail(LongLine))
  }

  lemma {:induction false} ParseExtend(a: Bytes, b: Bytes)
    ensures Extends(Parse(a, true), b, Parse(a + b, true), Parse(a + b, false))
    decreases |a|
  {
    hide ParseResp, ParseInline, ParseFrame;
    var whole := a + b;
    if a == [] {
      ParseLaxity(b);
      assert whole == b == [] + b;
    } else if IsRespType(a[0]) {
      RespExtends(a, b);
    } else {
      ParseInlineExtend(a, b);
      match ParseInline(a)
      case BlankLine(next) =>
        ParseExtend(a[next..], b);
        BlankExtends(a, b, next);
      case _ =>
        InlineExtends(a, b);
    }
  }

  lemma RespExtends(a: Bytes, b: Bytes)
    requires a != [] && IsRespType(a[0])
    ensures Extends(Parse(a, true), b, Parse(a + b, true), Parse(a + b, false))
  {
    hide ParseResp, ParseInline, ParseFrame;
    assert (a + b)[0] == a[0];
    ParseLaxity(a + b);
    ParseRespExtend(a, b);
  }

  lemma ParseInlineIs(buf: Bytes, lax: bool)
    requires buf != [] && !IsRespType(buf[0])
    ensures var line := ParseInline(buf);
      && (line.CommandLine? ==> Parse(buf, lax) == Got(line.frame, buf[line.next..]))
      && (line.OpenLine? ==> Parse(buf, lax) == NeedMore(buf))
      && (line.BadLine? ==> Parse(buf, lax) == Fail(line.reason))
  {
    hide ParseResp, ParseInline;
  }

  lemma InlineExtends(a: Bytes, b: Bytes)
    requires a != [] && !IsRespType(a[0]) && !ParseInline(a).BlankLine?
    ensures Extends(Parse(a, true), b, Parse(a + b, true), Parse(a + b, false))
  {
    hide *;
    var whole, line := a + b, ParseInline(a);
    assert whole[0] == a[0];
    ParseLaxity(whole);
    ParseInlineExtend(a, b);
    ParseInlineIs(a, true);
    if line.OpenLine? {
      OpenExtends(Parse(a, true), a, b, Parse(whole, true), Parse(whole, false));
    } else {
      ParseInlineIs(whole, true);
      ParseInlineIs(whole, false);
      if line.CommandLine? {
        assert whole[line.next..] == a[line.next..] + b;
      }
      DoneExtends(Parse(a, true), b, Parse(whole, true), Parse(whole, false));
    }
  }

  lemma OpenExtends(part: Outcome, a: Bytes, b: Bytes, whole: Outcome, strict: Outcome)
    requires part == NeedMore(a) && |a| <= MAX_LINE_LEN && whole == Parse(a + b, true) && strict == Parse(a + b, false)
    requires strict == whole || strict == Fail(LongLine)
    ensures Extends(part, b, whole, strict)
  {
    hide Parse;
  }

  lemma DoneExtends(part: Outcome, b: Bytes, whole: Outcome, strict: Outcome)
    requires (part.Got? && whole == Got(part.frame, part.rest + b)) || (part.Fail? && whole == part)
    requires strict == whole
    ensures Extends(part, b, whole, strict)
  {
    hide Parse;
  }

  lemma BlankExtends(a: Bytes, b: Bytes, next: nat)
    requires a != [] && !IsRespType(a[0]) && ParseInline(a) == BlankLine(next)
    ensures Parse(a, true) == Parse(a[next..], true)
    ensures forall lax :: Parse(a + b, lax) == Parse(a[next..] + b, lax)
  {
    hide ParseResp, ParseInline;
    var whole := a + b;
    assert whole[0] == a[0];
    ParseInlineExtend(a, b);
    assert whole[next..] == a[next..] + b;
  }

  lemma ParseRespExtend(a: Bytes, b: Bytes)
    ensures var part, whole, strict := ParseResp(a, true), ParseResp(a + b, true), ParseResp(a + b, false);
      && (part.Got? ==> whole == Got(part.frame, part.rest + b))
      && (part.NeedMore? && |a| > MAX_BUFFERED_FRAME_BYTES ==> !whole.Got?)
      && (part.Fail? && part.reason != LongLine ==> whole == part)
      && (part == Fail(LongLine) ==> strict == part)
  {
    hide ParseFrame;
    var whole := a + b;
    assert whole[..|a|] == a;
    ParseFrameLocal(whole, |a|, 0, 0);
    var frame := ParseFrame(a, 0, 0, true);
    if frame.Done? {
      assert whole[frame.pos..] == a[frame.pos..] + b;
    }
  }

  lemma ParseInlineExtend(a: Bytes, b: Bytes)
    ensures ParseInline(a).OpenLine? || ParseInline(a + b) == ParseInline(a)
    ensures ParseInline(a).OpenLine? ==> |a| <= MAX_LINE_LEN
  {
    hide InlineFrame;
    var whole := a + b;
    var lf, far := FindLf(a, 0), FindLf(whole, 0);
    assert forall j: nat :: j < |a| ==> whole[j] == a[j];
    if lf.Some? {
      assert whole[lf.value] == '\n';
      assert far == lf;
      assert whole[..lf.value] == a[..lf.value];
    } else {
      assert far.Some? ==> far.value >= |a|;
    }
  }

  lemma {:induction false} ParseLaxity(buf: Bytes)
    ensures Parse(buf, false) == Parse(buf, true) || Parse(buf, false) == Fail(LongLine)
    decreases |buf|
  {
    hide ParseFrame, ParseInline;
    if buf == [] {
    } else if IsRespType(buf[0]) {
      ParseFrameLaxity(buf, 0, 0);
    } else {
      match ParseInline(buf)
      case BlankLine(next) => ParseLaxity(buf[next..]);
      case _ =>
    }
  }

  /** All frames of a buffer, what stays in it, and the error that stopped the parse, if any. */
  datatype Drained = Drained(frames: seq<Frame>, rest: Bytes, failure: Option<Reason>)

  function Drain(buf: Bytes, lax: bool): (d: Drained)
    ensures d.failure.Some? ==> d.rest == []
    decreases |buf|
  {
    match Parse(buf, lax)
    case Got(frame, rest) =>
      var more := Drain(rest, lax);
      more.(frames := [frame] + more.frames)
    case NeedMore(rest) => Drained([], rest, None)
    case Fail(reason) => Drained([], [], Some(reason))
  }

  /** Reads, none of which is the empty one at the end of the input. */
  predicate NoneEmpty(chunks: seq<Bytes>) {
    forall i :: 0 <= i < |chunks| ==> chunks[i] != []
  }

  /** The read loop: drain the buffer, append the next read, repeat. */
  function Feed(buf: Bytes, chunks: seq<Bytes>): Drained
    decreases |chunks|
  {
    var now := Drain(buf, true);
    if now.failure.Some? || chunks == [] then now
    else
      var later := Feed(now.rest + chunks[0], chunks[1..]);
      later.(frames := now.frames + later.frames)
  }

  lemma ParseIsShorter(buf: Bytes)
    ensures var p := Parse(buf, true); (p.Got? ==> |p.rest| < |buf|) && (p.NeedMore? ==> |p.rest| <= |buf|)
  {
    hide ParseFrame, ParseInline;
  }

  lemma ParseNothing()
    ensures Parse([], true) == NeedMore([])
  {
  }

  lemma DrainCons(buf: Bytes, f: Frame, rest: Bytes, lax: bool)
    requires Parse(buf, lax) == Got(f, rest)
    ensures Drain(buf, lax) == Drain(rest, lax).(frames := [f] + Drain(rest, lax).frames)
  {
    hide Parse;
  }

  /** Draining a part first changes nothing, unless an unterminated line already broke the limit:
      that is final where the whole buffer drains alike with the limit on every line. */
  predicate DrainExtends(part: Drained, more: Drained, whole: Drained, moreStrict: Drained, wholeStrict: Drained) {
    && (part.failure.None? ==>
          && whole == Drained(part.frames + more.frames, more.rest, more.failure)
          && (wholeStrict == whole ==> moreStrict == more))
    && (part.failure.Some? && part.failure != Some(LongLine) ==> whole == part)
    && (part.failure == Some(LongLine) && wholeStrict == whole ==> whole == part)
  }

  lemma {:induction false} DrainExtend(a: Bytes, b: Bytes)
    ensures var part := Drain(a, true);
      DrainExtends(part, Drain(part.rest + b, true), Drain(a + b, true),
                   Drain(part.rest + b, false), Drain(a + b, false))
    decreases |a|
  {
    hide Parse;
    ParseExtend(a, b);
    match Parse(a, true)
    case Got(frame, rest) =>
      DrainExtend(rest, b);
      DrainCons(a, frame, rest, true);
      DrainCons(a + b, frame, rest + b, true);
      var part := Drain(rest, true);
      if Drain(a + b, false) == Drain(a + b, true) {
        AgreeingGot(a + b, frame, rest + b);
      }
    case NeedMore(rest) =>
      DrainSame(a + b, rest + b);
    case Fail(reason) =>
  }

  /** Where the strict parser drains like the program, it finds the same next frame. */
  lemma AgreeingGot(buf: Bytes, f: Frame, rest: Bytes)
    requires Drain(buf, false) == Drain(buf, true) && Parse(buf, true) == Got(f, rest)
    ensures Parse(buf, false) == Got(f, rest) && Drain(rest, false) == Drain(rest, true)
  {
    hide Parse;
    ParseLaxity(buf);
    DrainCons(buf, f, rest, true);
    DrainCons(buf, f, rest, false);
    assert ([f] + Drain(rest, false).frames)[1..] == Drain(rest, false).frames;
    assert ([f] + Drain(rest, true).frames)[1..] == Drain(rest, true).frames;
  }

  lemma DrainSame(a: Bytes, b: Bytes)
    requires Parse(a, true) == Parse(b, true) && Parse(a, false) == Parse(b, false)
    ensures Drain(a, true) == Drain(b, true) && Drain(a, false) == Drain(b, false)
    ensures [] + Drain(b, true).frames == Drain(b, true).frames
  {
    hide Parse;
  }

  /** However a stream is cut into reads, the read loop yields the frames, the leftover and the error
      of the whole stream, if the stream drains alike with the line limit on every line. */
  lemma {:induction false} FeedIsDrain(buf: Bytes, chunks: seq<Bytes>)
    requires Drain(buf + Flatten(chunks), false) == Drain(buf + Flatten(chunks), true)
    ensures Feed(buf, chunks) == Drain(buf + Flatten(chunks), true)
    decreases |chunks|
  {
    hide Drain, Feed;
    FeedStep(buf, chunks);
    if chunks == [] {
      assert buf + [] == buf;
    } else if Drain(buf, true).failure.None? {
      FlattenStep(Drain(buf, true).rest, chunks);
      DrainExtend(buf, Flatten(chunks));
      FeedIsDrain(Drain(buf, true).rest + chunks[0], chunks[1..]);
    } else {
      DrainExtend(buf, Flatten(chunks));
    }
  }

  lemma FlattenNone(buf: Bytes)
    ensures buf + Flatten([]) == buf
  {
  }

  lemma FlattenStep(rest: Bytes, chunks: seq<Bytes>)
    requires chunks != []
    ensures rest + Flatten(chunks) == (rest + chunks[0]) + Flatten(chunks[1..])
  {
  }

  lemma FeedStep(buf: Bytes, chunks: seq<Bytes>)
    ensures var now := Drain(buf, true);
      if now.failure.Some? || chunks == [] then Feed(buf, chunks) == now
      else
        var later := Feed(now.rest + chunks[0], chunks[1..]);
        Feed(buf, chunks) == Drained(now.frames + later.frames, later.rest, later.failure)
  {
    hide Drain;
  }
}
