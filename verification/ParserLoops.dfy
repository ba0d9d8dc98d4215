/** The parser as the program runs it: a cursor that moves, a buffer that shrinks, and loops. */
module ParserLoops {
  import opened Base
  import opened Frames
  import opened Parser
  import Utf8

  /** `p` with `done` put in front of the items it yields. */
  function Prepend<T>(done: seq<T>, p: Parsed<seq<T>>): Parsed<seq<T>> {
    if p.Done? then Done(done + p.value, p.pos) else p
  }

  lemma PrependAssoc<T>(done: seq<T>, x: T, p: Parsed<seq<T>>)
    ensures Prepend(done, Prepend([x], p)) == Prepend(done + [x], p)
  {
    if p.Done? {
      assert done + ([x] + p.value) == (done + [x]) + p.value;
    }
  }

  lemma PrependNil<T>(p: Parsed<seq<T>>)
    ensures Prepend([], p) == p
  {
    if p.Done? {
      assert [] + p.value == p.value;
    }
  }

  lemma ItemsStep(buf: Bytes, pos: nat, depth: nat, count: nat)
    requires pos <= |buf| && count > 0
    ensures var first := Parser.ParseFrame(buf, pos, depth, true);
      ParseItems(buf, pos, depth, count, true)
        == if first.Done? then Prepend([first.value], ParseItems(buf, first.pos, depth, count - 1, true))
           else first.PropagateFailure()
  {
    hide Parser.ParseFrame;
  }

  lemma NoItemsLeft(buf: Bytes, pos: nat, depth: nat)
    requires pos <= |buf|
    ensures ParseItems(buf, pos, depth, 0, true) == Done([], pos)
  {
  }

  class Cursor {
    const buf: Bytes
    var pos: nat

    ghost predicate Valid()
      reads this
    {
      pos <= |buf|
    }

    constructor (buf: Bytes)
      ensures this.buf == buf && pos == 0
    {
      this.buf := buf;
      pos := 0;
    }

    /** Where a successful read leaves the cursor. */
    ghost predicate MovedTo<T>(r: Parsed<T>)
      reads this
    {
      Valid() && (r.Done? ==> pos == r.pos)
    }

    method ReadLine() returns (r: Parsed<Bytes>)
      requires Valid()
      modifies this
      ensures r == Parser.ReadLine(buf, old(pos), true) && MovedTo(r)
    {
      var start := pos;
      var i := start;
      while i + 1 < |buf| && !IsCrlf(buf, i)
        invariant start <= i <= |buf|
        invariant forall j: nat :: start <= j < i ==> !IsCrlf(buf, j)
        invariant Valid() && pos == start
      {
        i := i + 1;
      }
      if i + 1 < |buf| {
        assert FindCrlf(buf, start) == Some(i);
        pos := i + 2;
        return Done(buf[start..i], pos);
      }
      assert forall j: nat :: start <= j ==> !IsCrlf(buf, j);
      return if |buf| - start > MAX_LINE_LEN then Bad(LongLine) else Incomplete;
    }

    method ReadLineString() returns (r: Parsed<Bytes>)
      requires Valid()
      modifies this
      ensures r == Parser.ReadLineString(buf, old(pos), true) && MovedTo(r)
    {
      r := ReadLine();
      if r.Done? && !Utf8.Valid(r.value) {
        r := Bad(InvalidUtf8);
      }
    }

    method ReadLineInt() returns (r: Parsed<int>)
      requires Valid()
      modifies this
      ensures r == Parser.ReadLineInt(buf, old(pos), true) && MovedTo(r)
    {
      var line := ReadLine();
      if !line.Done? {
        return line.PropagateFailure();
      }
      var n := ParseI64(line.value);
      r := if n.Some? then Done(n.value, line.pos) else Bad(InvalidInteger);
    }

    method ParseBulk() returns (r: Parsed<Frame>)
      requires Valid()
      modifies this
      ensures r == Parser.ParseBulk(buf, old(pos), true) && MovedTo(r)
    {
      var len := ReadLineInt();
      if !len.Done? {
        return len.PropagateFailure();
      }
      if len.value == -1 {
        return Done(Null, pos);
      }
      if len.value < 0 {
        return Bad(NegativeLen);
      }
      if len.value > Limits.MAX_BULK_LEN || !BulkFrameFits(len.value) {
        return Bad(BulkTooLong);
      }
      if |buf| - pos < len.value + 2 {
        return Incomplete;
      }
      var start := pos;
      pos := start + len.value;
      if !IsCrlf(buf, pos) {
        return Bad(MissingCrlf);
      }
      pos := pos + 2;
      return Done(Bulk(buf[start..start + len.value]), pos);
    }

    method ParseFrame(depth: nat) returns (r: Parsed<Frame>)
      requires Valid()
      modifies this
      ensures r == Parser.ParseFrame(buf, old(pos), depth, true) && MovedTo(r)
      decreases |buf| - pos, 0
    {
      if depth > MAX_NESTING_DEPTH {
        return Bad(TooDeep);
      }
      if pos == |buf| {
        return Incomplete;
      }
      var tag := buf[pos];
      pos := pos + 1;
      match tag
      case '+' =>
        var text := ReadLineString();
        r := if text.Done? then Done(Simple(text.value), text.pos) else text.PropagateFailure();
      case '-' =>
        var text := ReadLineString();
        r := if text.Done? then Done(Error(text.value), text.pos) else text.PropagateFailure();
      case ':' =>
        var n := ReadLineInt();
        r := if n.Done? then Done(Integer(n.value), n.pos) else n.PropagateFailure();
      case '$' => r := ParseBulk();
      case '*' => r := ParseArray(depth);
      case _ => r := Bad(BadTypeByte);
    }

    method ParseArray(depth: nat) returns (r: Parsed<Frame>)
      requires Valid()
      modifies this
      ensures r == Parser.ParseArray(buf, old(pos), depth, true) && MovedTo(r)
      decreases |buf| - pos, 1
    {
      hide Parser.ReadLineInt, Parser.ParseFrame, ParseItems;
      var count := ReadLineInt();
      if !count.Done? {
        return count.PropagateFailure();
      }
      if count.value == -1 {
        return Done(NullArray, pos);
      }
      if count.value < 0 {
        return Bad(NegativeLen);
      }
      if count.value > MAX_ARRAY_LEN {
        return Bad(ArrayTooLong);
      }
      var items: seq<Frame> := [];
      ghost var whole := ParseItems(buf, pos, depth + 1, count.value, true);
      PrependNil(whole);
      while |items| < count.value
        invariant |items| <= count.value
        invariant Valid() && old(pos) < pos
        invariant whole == Prepend(items, ParseItems(buf, pos, depth + 1, count.value - |items|, true))
        decreases count.value - |items|
      {
        ghost var left := count.value - |items|;
        ItemsStep(buf, pos, depth + 1, left);
        var item := ParseFrame(depth + 1);
        if !item.Done? {
          return item.PropagateFailure();
        }
        PrependAssoc(items, item.value, ParseItems(buf, pos, depth + 1, left - 1, true));
        items := items + [item.value];
      }
      NoItemsLeft(buf, pos, depth + 1);
      assert items + [] == items;
      return Done(Array(items), pos);
    }
  }

  // ---- inline commands ----

  method ReadInlineQuoted(line: Bytes, start: nat, arg: Bytes, quote: char) returns (r: Option<(Bytes, nat)>)
    requires start <= |line|
    ensures r == ReadQuoted(line, start, arg, quote)
  {
    var idx, out := start, arg;
    while idx < |line|
      invariant idx <= |line|
      invariant ReadQuoted(line, idx, out, quote) == ReadQuoted(line, start, arg, quote)
    {
      if line[idx] == quote {
        return Some((out, idx + 1));
      }
      if line[idx] != '\\' {
        out := out + [line[idx]];
        idx := idx + 1;
      } else if idx + 1 == |line| {
        return None;
      } else {
        var (bytes, next) := Unescape(line, idx + 1, quote);
        out := out + bytes;
        idx := next;
      }
    }
    return None;
  }

  method ReadInlineArg(line: Bytes, start: nat) returns (r: Option<(Bytes, nat)>)
    requires start <= |line|
    ensures r == ReadArg(line, start, [])
  {
    var idx, arg := start, [];
    while idx < |line| && !IsInlineSpace(line[idx])
      invariant idx <= |line|
      invariant ReadArg(line, idx, arg) == ReadArg(line, start, [])
    {
      if line[idx] == '\'' || line[idx] == '"' {
        var quoted := ReadInlineQuoted(line, idx + 1, arg, line[idx]);
        if quoted.None? {
          return None;
        }
        arg, idx := quoted.value.0, quoted.value.1;
      } else if line[idx] == '\\' {
        if idx + 1 == |line| {
          return None;
        }
        arg := arg + [line[idx + 1]];
        idx := idx + 2;
      } else {
        arg := arg + [line[idx]];
        idx := idx + 1;
      }
    }
    return Some((arg, idx));
  }

  /** `rest` with the arguments read so far in front. */
  function After(args: seq<Bytes>, rest: Option<seq<Bytes>>): Option<seq<Bytes>> {
    if rest.Some? then Some(args + rest.value) else None
  }

  lemma AfterNil(rest: Option<seq<Bytes>>)
    ensures After([], rest) == rest
  {
    if rest.Some? {
      assert [] + rest.value == rest.value;
    }
  }

  method SplitInlineArgs(line: Bytes) returns (r: Option<seq<Bytes>>)
    ensures r == SplitArgs(line, 0)
  {
    var args: seq<Bytes>, idx := [], 0;
    AfterNil(SplitArgs(line, 0));
    while idx < |line|
      invariant idx <= |line|
      invariant SplitArgs(line, 0) == After(args, SplitArgs(line, idx))
      decreases |line| - idx
    {
      ghost var before := idx;
      while idx < |line| && IsInlineSpace(line[idx])
        invariant before <= idx <= |line|
        invariant SkipSpaces(line, idx) == SkipSpaces(line, before)
      {
        idx := idx + 1;
      }
      if idx == |line| {
        assert args + [] == args;
        break;
      }
      var arg := ReadInlineArg(line, idx);
      if arg.None? {
        return None;
      }
      ghost var rest := SplitArgs(line, arg.value.1);
      if rest.Some? {
        assert args + ([arg.value.0] + rest.value) == (args + [arg.value.0]) + rest.value;
      }
      args := args + [arg.value.0];
      idx := arg.value.1;
    }
    assert args + [] == args;
    return Some(args);
  }

  /** The input buffer: `parse` takes one frame from the front, dropping blank inline lines. */
  class ReadBuffer {
    var bytes: Bytes

    constructor ()
      ensures bytes == []
    {
      bytes := [];
    }

    method Parse() returns (r: Outcome)
      modifies this
      ensures r == Parser.Parse(old(bytes), true)
      ensures !r.Fail? ==> bytes == r.rest
    {
      while true
        invariant Parser.Parse(bytes, true) == Parser.Parse(old(bytes), true)
        decreases |bytes|
      {
        if bytes == [] {
          return NeedMore(bytes);
        }
        if IsRespType(bytes[0]) {
          var cursor := new Cursor(bytes);
          var frame := cursor.ParseFrame(0);
          if frame == Incomplete {
            return NeedMore(bytes);
          }
          if frame.Bad? {
            return Fail(frame.reason);
          }
          if cursor.pos > Limits.MAX_BUFFERED_FRAME_BYTES {
            return Fail(FrameTooLong);
          }
          bytes := bytes[cursor.pos..];
          return Got(frame.value, bytes);
        }
        var line := ParseInline(bytes);
        match line
        case CommandLine(frame, next) =>
          bytes := bytes[next..];
          return Got(frame, bytes);
        case BlankLine(next) =>
          bytes := bytes[next..];
        case OpenLine =>
          return NeedMore(bytes);
        case BadLine(reason) =>
          return Fail(reason);
      }
    }
  }
}
