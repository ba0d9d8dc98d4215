/** RESP2 round trip: the parser inverts the printer, and no strict prefix of a printed frame
    yields anything (RESP2 specification, "Simple strings", "Bulk strings" and "Arrays"). */
module RoundTrip {
  import opened Base
  import opened Limits
  import opened Frames
  import opened Parser
  import opened Streaming
  import Utf8

  /** The frames a parser at nesting depth `depth` accepts: the limits of `src/resp/parser.rs`. */
  predicate Fits(f: Frame, depth: nat, lax: bool) {
    && depth <= MAX_NESTING_DEPTH
    && match f
       case Simple(s) => LineFits(s, lax)
       case Error(s) => LineFits(s, lax)
       case Integer(n) => IsI64(n)
       case Bulk(b) => BulkLen(|b|) <= MAX_BUFFERED_FRAME_BYTES
       case Null => true
       case NullArray => true
       case Array(items) =>
         |items| <= MAX_ARRAY_LEN && forall i :: 0 <= i < |items| ==> Fits(items[i], depth + 1, lax)
  }

  predicate LineFits(s: Bytes, lax: bool) {
    Utf8.Valid(s) && NoCrlf(s) && (lax || |s| < MAX_LINE_LEN)
  }

  predicate NoCrlf(s: Bytes) {
    forall i: nat :: i < |s| ==> !IsCrlf(s, i)
  }

  predicate At(buf: Bytes, pos: nat, s: Bytes) {
    pos + |s| <= |buf| && buf[pos..pos + |s|] == s
  }

  lemma AtSplit(buf: Bytes, pos: nat, a: Bytes, b: Bytes)
    requires At(buf, pos, a + b)
    ensures At(buf, pos, a) && At(buf, pos + |a|, b)
  {
    assert buf[pos..pos + |a|] == buf[pos..pos + |a| + |b|][..|a|];
    assert buf[pos + |a|..pos + |a| + |b|] == buf[pos..pos + |a| + |b|][|a|..];
  }

  lemma AtIndex(buf: Bytes, pos: nat, s: Bytes)
    requires At(buf, pos, s)
    ensures forall i: nat :: i < |s| ==> buf[pos + i] == s[i]
  {
    forall i: nat | i < |s|
      ensures buf[pos + i] == s[i]
    {
      assert buf[pos..pos + |s|][i] == s[i];
    }
  }

  lemma AtFirst(buf: Bytes, pos: nat, s: Bytes)
    requires s != [] && At(buf, pos, s)
    ensures buf[pos] == s[0]
  {
    assert buf[pos..pos + |s|][0] == s[0];
  }

  lemma LineAt(buf: Bytes, pos: nat, text: Bytes, lax: bool)
    requires At(buf, pos, text + CRLF) && NoCrlf(text) && (lax || |text| < MAX_LINE_LEN)
    ensures ReadLine(buf, pos, lax) == Done(text, pos + |text| + 2)
  {
    hide FindCrlf;
    AtSplit(buf, pos, text, CRLF);
    AtIndex(buf, pos, text);
    AtIndex(buf, pos + |text|, CRLF);
    assert IsCrlf(buf, pos + |text|);
    forall j: nat | pos <= j < pos + |text|
      ensures !IsCrlf(buf, j)
    {
      var i := j - pos;
      assert buf[j] == text[i] && !IsCrlf(text, i);
      if i + 1 < |text| {
        assert buf[pos + (i + 1)] == text[i + 1];
      } else {
        assert buf[pos + |text| + 0] == CRLF[0];
      }
    }
  }

  lemma CrlfAt(buf: Bytes, pos: nat)
    requires At(buf, pos, CRLF)
    ensures IsCrlf(buf, pos)
  {
    AtIndex(buf, pos, CRLF);
    assert buf[pos + 0] == CRLF[0] && buf[pos + 1] == CRLF[1];
  }

  lemma IntLineAt(buf: Bytes, pos: nat, n: int, lax: bool)
    requires IsI64(n) && At(buf, pos, DecInt(n) + CRLF)
    ensures ReadLineInt(buf, pos, lax) == Done(n, pos + |DecInt(n)| + 2)
  {
    hide ReadLine, ParseI64;
    DecLenUsize(if n < 0 then -n else n);
    LineAt(buf, pos, DecInt(n), lax);
    ParseDecInt(n);
  }

  lemma {:induction false} ParseFrameAt(buf: Bytes, pos: nat, depth: nat, f: Frame, lax: bool)
    requires Fits(f, depth, lax) && At(buf, pos, Encode(f))
    ensures ParseFrame(buf, pos, depth, lax) == Done(f, pos + |Encode(f)|)
    decreases f, 1
  {
    hide ParseFrame, ParseItems;
    if f.Array? {
      var start := pos + 1 + |Dec(|f.items|)| + 2;
      ArrayPieces(buf, pos, f.items);
      ParseItemsAt(buf, start, depth + 1, f.items, lax);
      ArrayAt(buf, pos, depth, f.items, start + |EncodeAll(f.items)|, lax);
    } else {
      LeafAt(buf, pos, depth, f, lax);
    }
  }

  lemma LeafAt(buf: Bytes, pos: nat, depth: nat, f: Frame, lax: bool)
    requires !f.Array? && Fits(f, depth, lax) && At(buf, pos, Encode(f))
    ensures ParseFrame(buf, pos, depth, lax) == Done(f, pos + |Encode(f)|)
  {
    hide ParseFrame;
    if f.Bulk? {
      BulkAt(buf, pos, depth, f.data, lax);
    } else if f.Simple? || f.Error? {
      TextFrameAt(buf, pos, depth, f, lax);
    } else {
      NumberAt(buf, pos, depth, f, lax);
    }
  }

  lemma ArrayPieces(buf: Bytes, pos: nat, items: seq<Frame>)
    requires At(buf, pos, Encode(Array(items)))
    ensures pos < |buf| && buf[pos] == '*' && At(buf, pos + 1, Dec(|items|) + CRLF)
    ensures At(buf, pos + 1 + |Dec(|items|)| + 2, EncodeAll(items))
  {
    hide Dec;
    AtFirst(buf, pos, Encode(Array(items)));
    TaggedAt(buf, pos, "*", Dec(|items|), EncodeAll(items));
  }

  lemma ArrayAt(buf: Bytes, pos: nat, depth: nat, items: seq<Frame>, end: nat, lax: bool)
    requires depth <= MAX_NESTING_DEPTH && |items| <= MAX_ARRAY_LEN
    requires pos < |buf| && buf[pos] == '*' && At(buf, pos + 1, Dec(|items|) + CRLF)
    requires ParseItems(buf, pos + 1 + |Dec(|items|)| + 2, depth + 1, |items|, lax) == Done(items, end)
    ensures ParseFrame(buf, pos, depth, lax) == Done(Array(items), end)
  {
    hide ReadLineInt, ParseItems;
    IntLineAt(buf, pos + 1, |items|, lax);
    assert ParseArray(buf, pos + 1, depth, lax) == Done(Array(items), end);
  }

  lemma TextFrameAt(buf: Bytes, pos: nat, depth: nat, f: Frame, lax: bool)
    requires f.Simple? || f.Error?
    requires Fits(f, depth, lax) && At(buf, pos, Encode(f))
    ensures ParseFrame(buf, pos, depth, lax) == Done(f, pos + |Encode(f)|)
  {
    hide ReadLineString, ParseArray, ParseBulk;
    AtFirst(buf, pos, Encode(f));
    if f.Simple? {
      TextAt(buf, pos, "+", f.text, lax);
    } else {
      TextAt(buf, pos, "-", f.message, lax);
    }
  }

  lemma NumberAt(buf: Bytes, pos: nat, depth: nat, f: Frame, lax: bool)
    requires f.Integer? || f.Null? || f.NullArray?
    requires Fits(f, depth, lax) && At(buf, pos, Encode(f))
    ensures ParseFrame(buf, pos, depth, lax) == Done(f, pos + |Encode(f)|)
  {
    hide ReadLineInt, ParseItems, DecInt;
    var tag := if f.Integer? then ":" else if f.Null? then "$" else "*";
    var n := if f.Integer? then f.n else -1;
    NumberText(f, tag, n);
    AtFirst(buf, pos, Encode(f));
    TaggedAt(buf, pos, tag, DecInt(n), []);
    IntLineAt(buf, pos + 1, n, lax);
  }

  lemma NumberText(f: Frame, tag: Bytes, n: int)
    requires f.Integer? || f.Null? || f.NullArray?
    requires tag == (if f.Integer? then ":" else if f.Null? then "$" else "*") && n == (if f.Integer? then f.n else -1)
    ensures Encode(f) == tag + DecInt(n) + CRLF + []
  {
    hide DecInt;
    NullText();
  }

  lemma NullText()
    ensures DecInt(-1) == "-1"
  {
    assert Dec(1) == "1";
  }

  lemma TaggedAt(buf: Bytes, pos: nat, tag: Bytes, line: Bytes, rest: Bytes)
    requires |tag| == 1
    requires At(buf, pos, tag + line + CRLF + rest)
    ensures At(buf, pos + 1, line + CRLF) && At(buf, pos + 1 + |line| + 2, rest)
  {
    assert tag + line + CRLF + rest == tag + ((line + CRLF) + rest);
    AtSplit(buf, pos, tag, (line + CRLF) + rest);
    AtSplit(buf, pos + 1, line + CRLF, rest);
  }

  lemma TextAt(buf: Bytes, pos: nat, tag: Bytes, s: Bytes, lax: bool)
    requires |tag| == 1 && LineFits(s, lax) && At(buf, pos, tag + s + CRLF)
    ensures ReadLineString(buf, pos + 1, lax) == Done(s, pos + 1 + |s| + 2)
  {
    assert tag + s + CRLF == tag + s + CRLF + [];
    TaggedAt(buf, pos, tag, s, []);
    LineAt(buf, pos + 1, s, lax);
  }

  lemma BulkAt(buf: Bytes, pos: nat, depth: nat, b: Bytes, lax: bool)
    requires depth <= MAX_NESTING_DEPTH
    requires BulkLen(|b|) <= MAX_BUFFERED_FRAME_BYTES && At(buf, pos, Encode(Bulk(b)))
    ensures ParseFrame(buf, pos, depth, lax) == Done(Bulk(b), pos + |Encode(Bulk(b))|)
  {
    hide ReadLineInt, ParseArray, Dec;
    AtFirst(buf, pos, Encode(Bulk(b)));
    BulkPayloadAt(buf, pos, b);
    IntLineAt(buf, pos + 1, |b|, lax);
    assert ParseBulk(buf, pos + 1, lax) == Done(Bulk(b), pos + |Encode(Bulk(b))|);
  }

  lemma BulkPayloadAt(buf: Bytes, pos: nat, b: Bytes)
    requires At(buf, pos, Encode(Bulk(b)))
    ensures At(buf, pos + 1, DecInt(|b|) + CRLF)
    ensures var start := pos + 1 + |Dec(|b|)| + 2; At(buf, start, b) && IsCrlf(buf, start + |b|)
  {
    hide Dec;
    assert Encode(Bulk(b)) == "$" + Dec(|b|) + CRLF + (b + CRLF);
    TaggedAt(buf, pos, "$", Dec(|b|), b + CRLF);
    var start := pos + 1 + |Dec(|b|)| + 2;
    AtSplit(buf, start, b, CRLF);
    CrlfAt(buf, start + |b|);
  }

  lemma {:induction false} ParseItemsAt(buf: Bytes, pos: nat, depth: nat, items: seq<Frame>, lax: bool)
    requires forall i :: 0 <= i < |items| ==> Fits(items[i], depth, lax)
    requires At(buf, pos, EncodeAll(items))
    ensures ParseItems(buf, pos, depth, |items|, lax) == Done(items, pos + |EncodeAll(items)|)
    decreases items, 0
  {
    hide ParseFrame;
    if items != [] {
      var next := pos + |Encode(items[0])|;
      AtSplit(buf, pos, Encode(items[0]), EncodeAll(items[1..]));
      ParseFrameAt(buf, pos, depth, items[0], lax);
      ParseItemsAt(buf, next, depth, items[1..], lax);
      ItemsCons(buf, pos, depth, items, next, pos + |EncodeAll(items)|, lax);
    }
  }

  lemma ItemsCons(buf: Bytes, pos: nat, depth: nat, items: seq<Frame>, next: nat, end: nat, lax: bool)
    requires pos <= |buf| && next <= |buf| && items != []
    requires ParseFrame(buf, pos, depth, lax) == Done(items[0], next)
    requires ParseItems(buf, next, depth, |items[1..]|, lax) == Done(items[1..], end)
    ensures ParseItems(buf, pos, depth, |items|, lax) == Done(items, end)
  {
    hide ParseFrame;
    assert [items[0]] + items[1..] == items;
  }

  /** Every printed frame starts with one of the five type bytes. */
  lemma EncodeTag(f: Frame)
    ensures Encode(f) != [] && IsRespType(Encode(f)[0])
  {
  }

  /** Parsing a printed frame followed by anything gives the frame and leaves the rest. */
  lemma ParseEncoded(f: Frame, rest: Bytes, lax: bool)
    requires Fits(f, 0, lax) && |Encode(f)| <= MAX_BUFFERED_FRAME_BYTES
    ensures Parse(Encode(f) + rest, lax) == Got(f, rest)
  {
    hide ParseFrame, Encode;
    var buf := Encode(f) + rest;
    EncodeTag(f);
    assert At(buf, 0, Encode(f));
    ParseFrameAt(buf, 0, 0, f, lax);
    assert buf[|Encode(f)|..] == rest;
  }

  /** A strict prefix of a printed frame yields no frame, no error, and stays in the buffer. */
  lemma ParsePrefix(f: Frame, n: nat)
    requires Fits(f, 0, false) && n < |Encode(f)|
    ensures Parse(Encode(f)[..n], true) == NeedMore(Encode(f)[..n])
  {
    hide ParseFrame;
    var buf := Encode(f);
    EncodeTag(f);
    assert At(buf, 0, Encode(f));
    ParseFrameAt(buf, 0, 0, f, false);
    ParseFrameLocal(buf, n, 0, 0);
    if n > 0 {
      assert buf[..n][0] == buf[0];
    }
  }

  /** A frame the parser takes back whatever surrounds it and however it arrives. */
  predicate Wire(f: Frame) {
    Fits(f, 0, false) && |Encode(f)| <= MAX_BUFFERED_FRAME_BYTES
  }

  predicate AllWire(fs: seq<Frame>) {
    forall i :: 0 <= i < |fs| ==> Wire(fs[i])
  }

  lemma ParseWire(f: Frame, rest: Bytes, lax: bool)
    requires Wire(f)
    ensures Parse(Encode(f) + rest, lax) == Got(f, rest)
  {
    hide Parse, Encode;
    StrictFits(f, 0);
    ParseEncoded(f, rest, lax);
  }

  lemma {:induction false} DrainEncoded(fs: seq<Frame>, lax: bool)
    requires AllWire(fs)
    ensures Drain(EncodeAll(fs), lax) == Drained(fs, [], None)
    decreases |fs|
  {
    hide Encode, ParseFrame;
    if fs == [] {
      assert Parse([], lax) == NeedMore([]);
    } else {
      var rest := EncodeAll(fs[1..]);
      assert Wire(fs[0]);
      ParseWire(fs[0], rest, lax);
      DrainCons(Encode(fs[0]) + rest, fs[0], rest, lax);
      DrainEncoded(fs[1..], lax);
      assert [fs[0]] + fs[1..] == fs;
    }
  }

  lemma {:induction false} StrictFits(f: Frame, depth: nat)
    requires Fits(f, depth, false)
    ensures Fits(f, depth, true)
    decreases f
  {
    match f
    case Array(items) =>
      forall i | 0 <= i < |items|
        ensures Fits(items[i], depth + 1, true)
      {
        StrictFits(items[i], depth + 1);
      }
    case _ =>
  }

  /** Any split of a stream of printed frames into reads yields exactly those frames. */
  lemma AnySplitYieldsTheFrames(fs: seq<Frame>, chunks: seq<Bytes>)
    requires AllWire(fs) && Flatten(chunks) == EncodeAll(fs)
    ensures Feed([], chunks) == Drained(fs, [], None)
  {
    hide Parse, Drain;
    DrainEncoded(fs, false);
    DrainEncoded(fs, true);
    assert [] + Flatten(chunks) == EncodeAll(fs);
    FeedIsDrain([], chunks);
  }

  /** The line limit is the exception: a text that long parses when it arrives whole and is refused
      when a read ends inside it. */
  lemma LongLineDependsOnReads(text: Bytes)
    requires LineFits(text, true) && MAX_LINE_LEN <= |text| <= MAX_BUFFERED_FRAME_BYTES - 3
    ensures var wire := Encode(Simple(text));
      && Parse(wire, true) == Got(Simple(text), [])
      && Parse(wire[..|text| + 2], true) == Fail(LongLine)
  {
    hide Parse;
    var wire := Encode(Simple(text));
    assert |wire| == |text| + 3;
    ParseEncoded(Simple(text), [], true);
    assert wire + [] == wire;
    OpenLongLine(text);
  }

  lemma OpenLongLine(text: Bytes)
    requires NoCrlf(text) && |text| >= MAX_LINE_LEN
    ensures Parse(Encode(Simple(text))[..|text| + 2], true) == Fail(LongLine)
  {
    hide FindCrlf;
    var part := Encode(Simple(text))[..|text| + 2];
    assert part == "+" + text + "\r";
    forall i: nat | 1 <= i
      ensures !IsCrlf(part, i)
    {
      if i < |text| {
        assert !IsCrlf(text, i - 1);
        assert part[i] == text[i - 1] && part[i + 1] == text[i];
      }
    }
    assert ReadLine(part, 1, true) == Bad(LongLine);
    assert part[0] == '+';
  }
}
