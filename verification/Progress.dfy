/** The parser never waits in vain: whatever it has, there are bytes that would make it yield a request or an error
    (`src/resp/parser.rs`). */
module Progress {
  import opened Base
  import opened Frames
  import opened Parser
  import opened Streaming
  import Blanks
  import RoundTrip
  import Utf8

  lemma LineEnds(buf: Bytes, pos: nat)
    requires pos <= |buf|
    ensures ReadLine(buf + CRLF, pos, true).Done?
  {
    hide FindCrlf;
    assert IsCrlf(buf + CRLF, |buf|);
  }

  /** What is read of a part stays when more arrives. */
  lemma NumberStands(buf: Bytes, ext: Bytes, pos: nat)
    requires pos <= |buf|
    ensures ReadLineInt(buf, pos, true).Done? ==> ReadLineInt(buf + ext, pos, true) == ReadLineInt(buf, pos, true)
  {
    hide ReadLineInt;
    assert (buf + ext)[..|buf|] == buf;
    ReadLineIntLocal(buf + ext, |buf|, pos);
  }

  lemma FrameStands(buf: Bytes, ext: Bytes, pos: nat, depth: nat)
    requires pos <= |buf|
    ensures var part := ParseFrame(buf, pos, depth, true); part.Done? ==> ParseFrame(buf + ext, pos, depth, true) == part
  {
    hide ParseFrame;
    assert (buf + ext)[..|buf|] == buf;
    ParseFrameLocal(buf + ext, |buf|, pos, depth);
  }

  /** Bytes that end the line a number stands on, unless it has ended. */
  lemma NumberEnds(buf: Bytes, pos: nat) returns (ext: Bytes)
    requires pos <= |buf|
    ensures !ReadLineInt(buf + ext, pos, true).Incomplete?
  {
    hide ReadLine, ParseI64;
    ext := CRLF;
    LineEnds(buf, pos);
  }

  lemma BulkEnds(buf: Bytes, pos: nat) returns (ext: Bytes)
    requires pos <= |buf|
    ensures !ParseBulk(buf + ext, pos, true).Incomplete?
  {
    hide ReadLineInt, BulkFrameFits;
    ext := NumberEnds(buf, pos);
    var line := ReadLineInt(buf + ext, pos, true);
    if line.Done? && line.value >= 0 {
      var fill: Bytes := seq(line.value + 2, _ => 'x');
      NumberStands(buf + ext, fill, pos);
      assert buf + (ext + fill) == (buf + ext) + fill;
      ext := ext + fill;
    }
  }

  function Room(depth: nat): nat {
    if depth > 130 then 0 else 130 - depth
  }

  lemma {:induction false} FrameEnds(buf: Bytes, pos: nat, depth: nat) returns (ext: Bytes)
    requires pos <= |buf|
    ensures !ParseFrame(buf + ext, pos, depth, true).Incomplete?
    decreases Room(depth), 0, 0
  {
    hide ParseArray, ParseBulk, ReadLine, ParseI64, Utf8.Valid;
    ext := [];
    if pos == |buf| {
      ext := "x";
      assert (buf + ext)[pos] == 'x';
    } else if buf[pos] == '$' {
      ext := BulkEnds(buf, pos + 1);
    } else if buf[pos] == '*' && depth <= MAX_NESTING_DEPTH {
      ext := ArrayEnds(buf, pos + 1, depth);
    } else {
      ext := CRLF;
      LineEnds(buf, pos + 1);
    }
    assert pos < |buf| ==> (buf + ext)[pos] == buf[pos];
  }

  lemma {:induction false} ArrayEnds(buf: Bytes, pos: nat, depth: nat) returns (ext: Bytes)
    requires pos <= |buf| && depth <= MAX_NESTING_DEPTH
    ensures !ParseArray(buf + ext, pos, depth, true).Incomplete?
    decreases Room(depth + 1), 2, 0
  {
    hide ReadLineInt, ParseItems;
    ext := NumberEnds(buf, pos);
    var line := ReadLineInt(buf + ext, pos, true);
    if line.Done? && line.value >= 0 {
      var more := ItemsEnd(buf + ext, line.pos, depth + 1, line.value);
      NumberStands(buf + ext, more, pos);
      assert buf + (ext + more) == (buf + ext) + more;
      ext := ext + more;
    }
  }

  lemma {:induction false} ItemsEnd(buf: Bytes, pos: nat, depth: nat, count: nat) returns (ext: Bytes)
    requires pos <= |buf|
    ensures !ParseItems(buf + ext, pos, depth, count, true).Incomplete?
    decreases Room(depth), 1, count
  {
    hide ParseFrame;
    ext := [];
    if count > 0 {
      ext := FrameEnds(buf, pos, depth);
      var first := ParseFrame(buf + ext, pos, depth, true);
      if first.Done? {
        var more := ItemsEnd(buf + ext, first.pos, depth, count - 1);
        FrameStands(buf + ext, more, pos, depth);
        assert buf + (ext + more) == (buf + ext) + more;
        ext := ext + more;
      }
    }
  }

  // ---- whole buffers ----

  lemma EmptyText()
    ensures Parse("+\r\n", true) == Got(Simple([]), [])
  {
    hide Parse;
    assert Encode(Simple([])) == "+\r\n" && "+\r\n" + [] == "+\r\n";
    RoundTrip.ParseEncoded(Simple([]), [], true);
  }

  lemma OpenIsEnded(buf: Bytes, more: Bytes)
    requires ParseInline(buf).OpenLine?
    ensures var line := ParseInline(buf + ['\n'] + more);
      !line.OpenLine? && (line.BlankLine? ==> line.next == |buf| + 1)
  {
    hide InlineFrame, ChompCr;
    var whole := buf + ['\n'] + more;
    assert whole[|buf|] == '\n';
    assert forall j: nat :: j < |buf| ==> whole[j] == buf[j];
    assert FindLf(whole, 0) == Some(|buf|);
  }

  lemma InlineEnds(buf: Bytes)
    requires buf != [] && !IsRespType(buf[0]) && ParseInline(buf).OpenLine?
    ensures !Parse(buf + (['\n'] + "+\r\n"), true).NeedMore?
  {
    hide ParseInline, ParseResp;
    var whole := buf + ['\n'] + "+\r\n";
    assert whole == buf + (['\n'] + "+\r\n") && whole[0] == buf[0];
    OpenIsEnded(buf, "+\r\n");
    assert whole[|buf| + 1..] == "+\r\n";
    EmptyText();
  }

  lemma RespEnds(buf: Bytes) returns (ext: Bytes)
    requires buf != [] && IsRespType(buf[0])
    ensures !Parse(buf + ext, true).NeedMore?
  {
    hide ParseFrame;
    ext := FrameEnds(buf, 0, 0);
    assert (buf + ext)[0] == buf[0];
  }

  /** Whatever has arrived, some bytes that may follow make it a request or an error. */
  lemma NoDeadEnd(buf: Bytes)
    ensures exists ext :: !Parse(buf + ext, true).NeedMore?
  {
    hide ParseInline, ParseResp, ParseFrame;
    var part := Parse(buf, true);
    if part.NeedMore? {
      var rest, ext := part.rest, "+\r\n";
      Blanks.ParseSkipsBlanks(buf, true);
      StillOpen(buf);
      if rest == [] {
        EmptyText();
        assert rest + ext == ext;
      } else if IsRespType(rest[0]) {
        ext := RespEnds(rest);
      } else {
        ext := ['\n'] + "+\r\n";
        InlineEnds(rest);
      }
      ParseExtend(buf, ext);
      assert !Parse(buf + ext, true).NeedMore?;
    } else {
      assert buf + [] == buf;
    }
  }

  /** What is left of a buffer without a request is empty, a frame that has begun, or an open line. */
  lemma {:induction false} StillOpen(buf: Bytes)
    requires Parse(buf, true).NeedMore?
    ensures var rest := Parse(buf, true).rest; rest == [] || IsRespType(rest[0]) || ParseInline(rest).OpenLine?
    decreases |buf|
  {
    hide ParseInline, ParseResp;
    if buf != [] && !IsRespType(buf[0]) && ParseInline(buf).BlankLine? {
      StillOpen(buf[ParseInline(buf).next..]);
    }
  }
}
