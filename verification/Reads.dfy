/** When the reads matter: a header line of at least `MAX_LINE_LEN` bytes is accepted if its end is
    already there, and refused if a read ends inside it. */
module Reads {
  import opened Base
  import opened Parser
  import opened Streaming
  import opened Blanks

  /** The program accepts a line that the limit on every line refuses. */
  predicate OnlyStrictRefuses<T(==)>(strict: Parsed<T>, whole: Parsed<T>) {
    strict == Bad(LongLine) && whole != Bad(LongLine)
  }

  lemma LineRefused(buf: Bytes, pos: nat) returns (n: nat)
    requires pos <= |buf| && OnlyStrictRefuses(ReadLine(buf, pos, false), ReadLine(buf, pos, true))
    ensures pos < n <= |buf| && ReadLine(buf[..n], pos, true) == Bad(LongLine)
  {
    var crlf := FindCrlf(buf, pos).value;
    n := crlf + 1;
    var part := buf[..n];
    assert forall j: nat :: IsCrlf(part, j) <==> j + 1 < n && IsCrlf(buf, j);
  }

  lemma IntRefused(buf: Bytes, pos: nat) returns (n: nat)
    requires pos <= |buf| && OnlyStrictRefuses(ReadLineInt(buf, pos, false), ReadLineInt(buf, pos, true))
    ensures pos < n <= |buf| && ReadLineInt(buf[..n], pos, true) == Bad(LongLine)
  {
    hide ReadLine, ParseI64;
    n := LineRefused(buf, pos);
  }

  lemma StringRefused(buf: Bytes, pos: nat) returns (n: nat)
    requires pos <= |buf| && OnlyStrictRefuses(ReadLineString(buf, pos, false), ReadLineString(buf, pos, true))
    ensures pos < n <= |buf| && ReadLineString(buf[..n], pos, true) == Bad(LongLine)
  {
    hide ReadLine;
    n := LineRefused(buf, pos);
  }

  lemma BulkRefused(buf: Bytes, pos: nat) returns (n: nat)
    requires pos <= |buf| && OnlyStrictRefuses(ParseBulk(buf, pos, false), ParseBulk(buf, pos, true))
    ensures pos < n <= |buf| && ParseBulk(buf[..n], pos, true) == Bad(LongLine)
  {
    hide ReadLineInt, BulkFrameFits;
    ReadLineIntLocal(buf, |buf|, pos);
    n := IntRefused(buf, pos);
  }

  /** Where only the strict parser refuses a line, the program refuses it too after some of the bytes. */
  lemma {:induction false} FrameRefused(buf: Bytes, pos: nat, depth: nat) returns (n: nat)
    requires pos <= |buf|
    requires OnlyStrictRefuses(ParseFrame(buf, pos, depth, false), ParseFrame(buf, pos, depth, true))
    ensures pos < n <= |buf| && ParseFrame(buf[..n], pos, depth, true) == Bad(LongLine)
    decreases |buf| - pos, 0, 0
  {
    hide ParseArray, ParseBulk, ReadLineString, ReadLineInt;
    match buf[pos]
    case '+' => n := StringRefused(buf, pos + 1);
    case '-' => n := StringRefused(buf, pos + 1);
    case ':' => n := IntRefused(buf, pos + 1);
    case '$' => n := BulkRefused(buf, pos + 1);
    case '*' => n := ArrayRefused(buf, pos + 1, depth);
  }

  lemma {:induction false} ArrayRefused(buf: Bytes, pos: nat, depth: nat) returns (n: nat)
    requires pos <= |buf|
    requires OnlyStrictRefuses(ParseArray(buf, pos, depth, false), ParseArray(buf, pos, depth, true))
    ensures pos < n <= |buf| && ParseArray(buf[..n], pos, depth, true) == Bad(LongLine)
    decreases |buf| - pos, 2, 0
  {
    hide ReadLineInt, ParseItems;
    var line := ReadLineInt(buf, pos, false);
    ReadLineIntLocal(buf, |buf|, pos);
    if line == Bad(LongLine) {
      n := IntRefused(buf, pos);
    } else {
      n := ItemsRefused(buf, line.pos, depth + 1, line.value);
      ReadLineIntLocal(buf, n, pos);
    }
  }

  lemma {:induction false} ItemsRefused(buf: Bytes, pos: nat, depth: nat, count: nat) returns (n: nat)
    requires pos <= |buf|
    requires OnlyStrictRefuses(ParseItems(buf, pos, depth, count, false), ParseItems(buf, pos, depth, count, true))
    ensures pos < n <= |buf| && ParseItems(buf[..n], pos, depth, count, true) == Bad(LongLine)
    decreases |buf| - pos, 1, count
  {
    hide ParseFrame;
    ParseFrameLaxity(buf, pos, depth);
    var first := ParseFrame(buf, pos, depth, false);
    if first == Bad(LongLine) {
      n := FrameRefused(buf, pos, depth);
    } else {
      n := ItemsRefused(buf, first.pos, depth, count - 1);
      ParseFrameLocal(buf, n, pos, depth);
    }
  }

  lemma {:induction false} ParseRefused(buf: Bytes) returns (n: nat)
    requires Parse(buf, false) == Fail(LongLine) && Parse(buf, true) != Fail(LongLine)
    ensures n <= |buf| && Parse(buf[..n], true) == Fail(LongLine)
    decreases |buf|
  {
    hide ParseFrame, Parse, StartsBlank, AfterBlank;
    if StartsBlank(buf) {
      ParseAfterBlank(buf, false);
      ParseAfterBlank(buf, true);
      var rest := AfterBlank(buf);
      var m := ParseRefused(rest);
      n := |buf| - |rest| + m;
      BlankLineStands(buf, n);
      ParseAfterBlank(buf[..n], true);
    } else {
      n := RespRefused(buf);
    }
  }

  lemma RespRefused(buf: Bytes) returns (n: nat)
    requires Parse(buf, false) == Fail(LongLine) && Parse(buf, true) != Fail(LongLine) && !StartsBlank(buf)
    ensures n <= |buf| && Parse(buf[..n], true) == Fail(LongLine)
  {
    hide ParseFrame, ParseInline;
    n := FrameRefused(buf, 0, 0);
    assert buf[..n][0] == buf[0];
  }

  /** A stream that the strict parser drains otherwise can be cut in two such that the first read
      already ends in a refused line. */
  lemma {:induction false} DrainRefused(s: Bytes) returns (n: nat)
    requires Drain(s, false) != Drain(s, true)
    ensures n <= |s| && Drain(s[..n], true).failure == Some(LongLine)
    ensures Drain(s[..n], true) != Drain(s, true)
    decreases |s|
  {
    hide Parse;
    ParseLaxity(s);
    if Parse(s, false) == Fail(LongLine) {
      n := ParseRefused(s);
    } else {
      var Got(f, rest) := Parse(s, true);
      DrainCons(s, f, rest, true);
      DrainCons(s, f, rest, false);
      n := DrainRefused(rest);
      ParseSuffix(s);
      var cut := rest[n..];
      n := |s| - |cut|;
      assert IsSuffix(cut, s);
      KeptRestricts(s, f, rest, cut);
      var part := rest[..|rest| - |cut|];
      DrainCons(s[..n], f, part, true);
      assert ([f] + Drain(part, true).frames)[1..] == Drain(part, true).frames;
      assert ([f] + Drain(rest, true).frames)[1..] == Drain(rest, true).frames;
    }
  }

  /** The read loop yields the whole stream's result for every way to cut the stream into reads,
      exactly if the line limit on every line changes nothing of that result. */
  lemma ReadsDoNotMatterIff(s: Bytes)
    ensures (forall chunks :: Flatten(chunks) == s ==> Feed([], chunks) == Drain(s, true))
       <==> Drain(s, false) == Drain(s, true)
  {
    hide Drain, Feed, Flatten;
    if Drain(s, false) == Drain(s, true) {
      forall chunks | Flatten(chunks) == s
        ensures Feed([], chunks) == Drain(s, true)
      {
        assert [] + s == s;
        FeedIsDrain([], chunks);
      }
    } else {
      var n := DrainRefused(s);
      var chunks := [s[..n], s[n..]];
      TwoReads(s[..n], s[n..]);
      assert s[..n] + s[n..] == s;
      assert Flatten(chunks) == s && Feed([], chunks) != Drain(s, true);
    }
  }

  /** The loop stops at the first error and never sees the second read. */
  lemma TwoReads(a: Bytes, b: Bytes)
    ensures Flatten([a, b]) == a + b
    ensures Drain(a, true).failure.Some? ==> Feed([], [a, b]) == Drain(a, true)
  {
    hide Drain, Feed;
    FlattenTwo(a, b);
    DrainNothing();
    NextRead(a, b);
    FeedStep([], [a, b]);
    FeedStep(a, [b]);
    assert [] + Drain(a, true).frames == Drain(a, true).frames;
  }

  lemma FlattenTwo(a: Bytes, b: Bytes)
    ensures Flatten([a, b]) == a + b
  {
    assert [b][1..] == [] && Flatten([b]) == b;
    assert [a, b][1..] == [b];
  }

  lemma NextRead(a: Bytes, b: Bytes)
    ensures [a, b][1..] == [b] && [] + [a, b][0] == a
  {
  }

  lemma DrainNothing()
    ensures Drain([], true) == Drained([], [], None)
  {
    ParseNothing();
  }
}
