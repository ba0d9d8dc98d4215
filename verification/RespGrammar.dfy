/** The language of RESP frames, and that the parser reads exactly it (`src/resp/parser.rs`): the lines, numbers and
    limits that make a frame, whoever wrote it. */
module RespGrammar {
  import opened Base
  import opened Frames
  import opened Parser
  import opened RoundTrip
  import Utf8

  // ---- numbers ----

  function Zeros(k: nat): Bytes {
    if k == 0 then [] else Zeros(k - 1) + ['0']
  }

  lemma {:induction false} ZerosDigits(k: nat, m: nat)
    ensures AllDigits(Zeros(k) + Dec(m)) && DigitsValue(Zeros(k) + Dec(m)) == m
  {
    hide Dec;
    ZerosValue(k);
    DigitsAppend(Zeros(k), Dec(m));
    DecValue(m);
  }

  lemma {:induction false} ZerosValue(k: nat)
    ensures |Zeros(k)| == k && AllDigits(Zeros(k)) && DigitsValue(Zeros(k)) == 0
  {
    if k > 0 {
      ZerosValue(k - 1);
      assert Zeros(k)[..k - 1] == Zeros(k - 1);
    }
  }

  lemma {:induction false} DigitsAppend(zeros: Bytes, s: Bytes)
    requires AllDigits(zeros) && DigitsValue(zeros) == 0 && AllDigits(s)
    ensures AllDigits(zeros + s) && DigitsValue(zeros + s) == DigitsValue(s)
  {
    if s == [] {
      assert zeros + s == zeros;
    } else {
      var front := s[..|s| - 1];
      DigitsAppend(zeros, front);
      assert (zeros + s)[..|zeros + s| - 1] == zeros + front;
    }
  }

  lemma {:induction false} DigitsAreZerosAndDec(s: Bytes) returns (k: nat)
    requires s != [] && AllDigits(s)
    ensures s == Zeros(k) + Dec(DigitsValue(s))
  {
    var front, d := s[..|s| - 1], (s[|s| - 1] - '0') as int;
    assert s == front + [Digit(d)];
    if front == [] {
      k := 0;
    } else {
      k := DigitsAreZerosAndDec(front);
      if DigitsValue(front) == 0 {
        assert front == Zeros(k + 1);
        k := k + 1;
      } else {
        assert Dec(DigitsValue(s)) == Dec(DigitsValue(front)) + [Digit(d)];
      }
    }
  }

  /** A sign, zeros, and the digits of a number of 64 bits. */
  predicate Numeral(s: Bytes, n: int, sign: Bytes, zeros: nat) {
    && IsI64(n)
    && s == sign + (Zeros(zeros) + Dec(if n < 0 then -n else n))
    && (if n < 0 then sign == "-" else if n == 0 then sign in {"", "+", "-"} else sign in {"", "+"})
  }

  lemma NumeralIsRead(s: Bytes, n: int, sign: Bytes, zeros: nat)
    requires Numeral(s, n, sign, zeros)
    ensures ParseI64(s) == Some(n)
  {
    hide Dec, DigitsValue, Zeros;
    var digits := Zeros(zeros) + Dec(if n < 0 then -n else n);
    ZerosDigits(zeros, if n < 0 then -n else n);
    if sign == "" {
      assert s == digits && IsDigit(s[0]);
    } else {
      assert s[1..] == digits;
    }
  }

  lemma ReadIsNumeral(s: Bytes) returns (sign: Bytes, zeros: nat)
    requires ParseI64(s).Some?
    ensures Numeral(s, ParseI64(s).value, sign, zeros)
  {
    hide Dec, DigitsValue, Zeros;
    sign := if s[0] == '-' then "-" else if s[0] == '+' then "+" else "";
    var digits := if sign == "" then s else s[1..];
    assert s == sign + digits;
    zeros := DigitsAreZerosAndDec(digits);
  }

  /** What reads as the number `n`: its decimal text, perhaps with zeros in front and a sign that agrees. */
  lemma NumbersIff(s: Bytes, n: int)
    ensures ParseI64(s) == Some(n) <==> exists sign, zeros :: Numeral(s, n, sign, zeros)
  {
    hide ParseI64, Numeral;
    if ParseI64(s) == Some(n) {
      var sign, zeros := ReadIsNumeral(s);
    }
    if sign, zeros :| Numeral(s, n, sign, zeros) {
      NumeralIsRead(s, n, sign, zeros);
    }
  }

  lemma NumbersAreLines(s: Bytes)
    requires ParseI64(s).Some?
    ensures NoCrlf(s)
  {
    forall i: nat | i < |s|
      ensures s[i] != '\r'
    {
      assert i == 0 || IsDigit(s[1..][i - 1]);
    }
  }

  // ---- frames ----

  /** A line with its type byte; a bulk string behind the line with its length; items behind the line with their
      count. */
  datatype Spelling = Line(tag: char, line: Bytes) | Blob(line: Bytes, data: Bytes) | Items(line: Bytes, items: seq<Spelling>)

  function Written(s: Spelling): Bytes
    decreases s, 1
  {
    match s
    case Line(tag, line) => [tag] + line + CRLF + []
    case Blob(line, data) => ['$'] + line + CRLF + (data + CRLF)
    case Items(line, items) => ['*'] + line + CRLF + WrittenAll(items)
  }

  function WrittenAll(items: seq<Spelling>): Bytes
    decreases items, 0
  {
    if items == [] then [] else Written(items[0]) + WrittenAll(items[1..])
  }

  predicate LineSpells(tag: char, line: Bytes, f: Frame) {
    if tag == '+' then f == Simple(line) && NoCrlf(line) && Utf8.Valid(line)
    else if tag == '-' then f == Error(line) && NoCrlf(line) && Utf8.Valid(line)
    else if tag == ':' then f.Integer? && ParseI64(line) == Some(f.n)
    else if tag == '$' then f == Null && ParseI64(line) == Some(-1)
    else tag == '*' && f == NullArray && ParseI64(line) == Some(-1)
  }

  /** The frame that is spelled, within the limits: 128 levels, 1048576 items, bulk strings of 64 MiB. */
  predicate Spells(s: Spelling, f: Frame, depth: nat) {
    && depth <= 128
    && match s
       case Line(tag, line) => LineSpells(tag, line, f)
       case Blob(line, data) =>
         f == Bulk(data) && ParseI64(line) == Some(|data|) && |Encode(f)| <= 64 * 1024 * 1024
       case Items(line, items) =>
         && f.Array? && |f.items| == |items| <= 1024 * 1024 && ParseI64(line) == Some(|items|)
         && forall i :: 0 <= i < |items| ==> Spells(items[i], f.items[i], depth + 1)
  }

  // ---- what is spelled is read ----

  lemma NumberLineAt(buf: Bytes, pos: nat, line: Bytes, rest: Bytes, tag: char)
    requires At(buf, pos, [tag] + line + CRLF + rest) && ParseI64(line).Some?
    ensures pos < |buf| && buf[pos] == tag && At(buf, pos + 1 + |line| + 2, rest)
    ensures ReadLineInt(buf, pos + 1, true) == Done(ParseI64(line).value, pos + 1 + |line| + 2)
  {
    hide ParseI64, ReadLine, NoCrlf;
    NumbersAreLines(line);
    AtFirst(buf, pos, [tag] + line + CRLF + rest);
    TaggedAt(buf, pos, [tag], line, rest);
    LineAt(buf, pos + 1, line, true);
  }

  lemma TextLineAt(buf: Bytes, pos: nat, line: Bytes, tag: char)
    requires At(buf, pos, [tag] + line + CRLF + []) && NoCrlf(line) && Utf8.Valid(line)
    ensures pos < |buf| && buf[pos] == tag && ReadLineString(buf, pos + 1, true) == Done(line, pos + 1 + |line| + 2)
  {
    hide ReadLine, NoCrlf, Utf8.Valid;
    AtFirst(buf, pos, [tag] + line + CRLF + []);
    TaggedAt(buf, pos, [tag], line, []);
    LineAt(buf, pos + 1, line, true);
  }

  lemma LineIsRead(buf: Bytes, pos: nat, depth: nat, tag: char, line: Bytes, f: Frame)
    requires depth <= 128 && LineSpells(tag, line, f) && At(buf, pos, Written(Line(tag, line)))
    ensures ParseFrame(buf, pos, depth, true) == Done(f, pos + |Written(Line(tag, line))|)
  {
    hide ParseI64, ReadLineInt, ReadLineString, NoCrlf, Utf8.Valid;
    if tag == '+' || tag == '-' {
      TextLineAt(buf, pos, line, tag);
    } else {
      NumberLineAt(buf, pos, line, [], tag);
    }
  }

  lemma BlobIsRead(buf: Bytes, pos: nat, depth: nat, line: Bytes, data: Bytes)
    requires depth <= 128 && ParseI64(line) == Some(|data|) && |Encode(Bulk(data))| <= 64 * 1024 * 1024
    requires At(buf, pos, Written(Blob(line, data)))
    ensures ParseFrame(buf, pos, depth, true) == Done(Bulk(data), pos + |Written(Blob(line, data))|)
  {
    hide ParseI64, ReadLineInt, Dec;
    NumberLineAt(buf, pos, line, data + CRLF, '$');
    var start := pos + 1 + |line| + 2;
    AtSplit(buf, start, data, CRLF);
    CrlfAt(buf, start + |data|);
    assert ParseBulk(buf, pos + 1, true) == Done(Bulk(data), start + |data| + 2);
  }

  lemma {:induction false} SpelledIsRead(buf: Bytes, pos: nat, depth: nat, s: Spelling, f: Frame)
    requires Spells(s, f, depth) && At(buf, pos, Written(s))
    ensures ParseFrame(buf, pos, depth, true) == Done(f, pos + |Written(s)|)
    decreases s, 1
  {
    hide ParseI64, ParseFrame, ParseItems, LineSpells;
    match s
    case Line(tag, line) => LineIsRead(buf, pos, depth, tag, line, f);
    case Blob(line, data) => BlobIsRead(buf, pos, depth, line, data);
    case Items(line, items) =>
      NumberLineAt(buf, pos, line, WrittenAll(items), '*');
      var start := pos + 1 + |line| + 2;
      AllAreRead(buf, start, depth + 1, items, f.items);
      CountedItems(buf, pos, depth, start, f.items, start + |WrittenAll(items)|);
  }

  lemma CountedItems(buf: Bytes, pos: nat, depth: nat, start: nat, items: seq<Frame>, end: nat)
    requires depth <= 128 && |items| <= 1024 * 1024 && pos < |buf| && buf[pos] == '*' && start <= |buf|
    requires ReadLineInt(buf, pos + 1, true) == Done(|items|, start)
    requires ParseItems(buf, start, depth + 1, |items|, true) == Done(items, end)
    ensures ParseFrame(buf, pos, depth, true) == Done(Array(items), end)
  {
    hide ReadLineInt, ParseItems;
    assert ParseArray(buf, pos + 1, depth, true) == Done(Array(items), end);
  }

  lemma {:induction false} AllAreRead(buf: Bytes, pos: nat, depth: nat, items: seq<Spelling>, frames: seq<Frame>)
    requires |frames| == |items| && forall i :: 0 <= i < |items| ==> Spells(items[i], frames[i], depth)
    requires At(buf, pos, WrittenAll(items))
    ensures ParseItems(buf, pos, depth, |items|, true) == Done(frames, pos + |WrittenAll(items)|)
    decreases items, 0
  {
    hide ParseFrame, Spells, Written;
    if items != [] {
      var next := pos + |Written(items[0])|;
      AtSplit(buf, pos, Written(items[0]), WrittenAll(items[1..]));
      SpelledIsRead(buf, pos, depth, items[0], frames[0]);
      AllAreRead(buf, next, depth, items[1..], frames[1..]);
      ItemsCons(buf, pos, depth, frames, next, pos + |WrittenAll(items)|, true);
    }
  }

  // ---- what is read is spelled ----

  lemma LineReadIs(buf: Bytes, pos: nat)
    requires pos <= |buf| && ReadLine(buf, pos, true).Done?
    ensures var r := ReadLine(buf, pos, true); NoCrlf(r.value) && At(buf, pos, r.value + CRLF) && r.pos == pos + |r.value| + 2
  {
    hide FindCrlf;
    var r := ReadLine(buf, pos, true);
    var line := r.value;
    forall i: nat | i < |line|
      ensures !IsCrlf(line, i)
    {
      assert !IsCrlf(buf, pos + i);
    }
    assert buf[pos..r.pos] == line + CRLF;
  }

  lemma TagAt(buf: Bytes, pos: nat, line: Bytes, rest: Bytes)
    requires pos < |buf| && At(buf, pos + 1, line + CRLF) && At(buf, pos + 1 + |line| + 2, rest)
    ensures At(buf, pos, [buf[pos]] + line + CRLF + rest)
  {
    var whole := [buf[pos]] + line + CRLF + rest;
    AtIndex(buf, pos + 1, line + CRLF);
    AtIndex(buf, pos + 1 + |line| + 2, rest);
    forall i: nat | i < |whole|
      ensures buf[pos + i] == whole[i]
    {
      if 1 <= i < 1 + |line| + 2 {
        assert whole[i] == (line + CRLF)[i - 1] && buf[pos + 1 + (i - 1)] == (line + CRLF)[i - 1];
      } else if i > 0 {
        assert whole[i] == rest[i - (1 + |line| + 2)];
        assert buf[pos + 1 + |line| + 2 + (i - (1 + |line| + 2))] == rest[i - (1 + |line| + 2)];
      }
    }
    assert buf[pos..pos + |whole|] == whole;
  }

  lemma LineReadIsSpelled(buf: Bytes, pos: nat, depth: nat, f: Frame, n: nat)
    requires pos < |buf| && ParseFrame(buf, pos, depth, true) == Done(f, n) && !f.Bulk? && !f.Array?
    ensures var line := ReadLine(buf, pos + 1, true);
      && line.Done? && LineSpells(buf[pos], line.value, f)
      && At(buf, pos, Written(Line(buf[pos], line.value))) && n == pos + |Written(Line(buf[pos], line.value))|
  {
    hide ReadLine, ParseI64, Utf8.Valid, NoCrlf, ParseItems;
    LineReadIs(buf, pos + 1);
    TagAt(buf, pos, ReadLine(buf, pos + 1, true).value, []);
  }

  lemma BlobReadIsSpelled(buf: Bytes, pos: nat, depth: nat, data: Bytes, n: nat)
    requires pos < |buf| && ParseFrame(buf, pos, depth, true) == Done(Bulk(data), n)
    ensures var line := ReadLine(buf, pos + 1, true);
      && line.Done? && ParseI64(line.value) == Some(|data|) && |Encode(Bulk(data))| <= 64 * 1024 * 1024
      && At(buf, pos, Written(Blob(line.value, data))) && n == pos + |Written(Blob(line.value, data))|
  {
    hide ReadLine, ParseI64, Dec, ParseItems;
    var line := ReadLine(buf, pos + 1, true).value;
    assert buf[pos] == '$';
    LineReadIs(buf, pos + 1);
    var start := pos + 1 + |line| + 2;
    assert buf[start..start + |data| + 2] == data + CRLF;
    TagAt(buf, pos, line, data + CRLF);
  }

  lemma {:induction false} ReadIsSpelled(buf: Bytes, pos: nat, depth: nat) returns (s: Spelling)
    requires pos <= |buf| && ParseFrame(buf, pos, depth, true).Done?
    ensures var r := ParseFrame(buf, pos, depth, true);
      Spells(s, r.value, depth) && At(buf, pos, Written(s)) && r.pos == pos + |Written(s)|
    decreases |buf| - pos, 0, 0
  {
    hide ReadLine, ParseI64, LineSpells, ParseFrame, ParseItems, Encode;
    var r := ParseFrame(buf, pos, depth, true);
    FrameReadCases(buf, pos, depth);
    var line := ReadLine(buf, pos + 1, true).value;
    if r.value.Bulk? {
      s := Blob(line, r.value.data);
      BlobReadIsSpelled(buf, pos, depth, r.value.data, r.pos);
    } else if r.value.Array? {
      var start := ReadLine(buf, pos + 1, true).pos;
      LineReadIs(buf, pos + 1);
      var items := ItemsReadAreSpelled(buf, start, depth + 1, |r.value.items|);
      s := Items(line, items);
      TagAt(buf, pos, line, WrittenAll(items));
    } else {
      s := Line(buf[pos], line);
      LineReadIsSpelled(buf, pos, depth, r.value, r.pos);
    }
  }

  lemma FrameReadCases(buf: Bytes, pos: nat, depth: nat)
    requires pos <= |buf| && ParseFrame(buf, pos, depth, true).Done?
    ensures depth <= 128 && pos < |buf| && ReadLine(buf, pos + 1, true).Done?
    ensures var r, line := ParseFrame(buf, pos, depth, true), ReadLine(buf, pos + 1, true);
      r.value.Array? ==>
        && buf[pos] == '*' && |r.value.items| <= 1024 * 1024 && ParseI64(line.value) == Some(|r.value.items|)
        && ParseItems(buf, line.pos, depth + 1, |r.value.items|, true) == Done(r.value.items, r.pos)
  {
    hide ReadLine, ParseI64, ParseItems, BulkFrameFits, Utf8.Valid;
  }

  lemma {:induction false} ItemsReadAreSpelled(buf: Bytes, pos: nat, depth: nat, count: nat) returns (items: seq<Spelling>)
    requires pos <= |buf| && ParseItems(buf, pos, depth, count, true).Done?
    ensures var r := ParseItems(buf, pos, depth, count, true);
      && |items| == count && (forall i :: 0 <= i < count ==> Spells(items[i], r.value[i], depth))
      && At(buf, pos, WrittenAll(items)) && r.pos == pos + |WrittenAll(items)|
    decreases |buf| - pos, 1, count
  {
    hide ParseFrame, Spells, Written;
    items := [];
    if count > 0 {
      var first := ReadIsSpelled(buf, pos, depth);
      var next := ParseFrame(buf, pos, depth, true).pos;
      var rest := ItemsReadAreSpelled(buf, next, depth, count - 1);
      items := [first] + rest;
      assert items[1..] == rest;
      AtJoin(buf, pos, Written(first), WrittenAll(rest));
    }
  }

  lemma AtJoin(buf: Bytes, pos: nat, a: Bytes, b: Bytes)
    requires At(buf, pos, a) && At(buf, pos + |a|, b)
    ensures At(buf, pos, a + b)
  {
    assert buf[pos..pos + |a| + |b|] == buf[pos..pos + |a|] + buf[pos + |a|..pos + |a| + |b|];
  }

  // ---- both ways ----

  /** The parser reads a frame exactly where the bytes spell it, and exactly to their end. */
  lemma ReadIffSpelled(buf: Bytes, pos: nat, depth: nat, f: Frame, n: nat)
    requires pos <= |buf|
    ensures ParseFrame(buf, pos, depth, true) == Done(f, n)
       <==> exists s :: Spells(s, f, depth) && At(buf, pos, Written(s)) && n == pos + |Written(s)|
  {
    hide ParseFrame, Spells, At, Written;
    if ParseFrame(buf, pos, depth, true) == Done(f, n) {
      var s := ReadIsSpelled(buf, pos, depth);
    }
    if s :| Spells(s, f, depth) && At(buf, pos, Written(s)) && n == pos + |Written(s)| {
      SpelledIsRead(buf, pos, depth, s, f);
    }
  }

  /** A buffer that starts with a type byte yields a frame exactly if it starts with a spelling of it of at most
      64 MiB; what follows stays. */
  lemma GotIffSpelled(buf: Bytes, f: Frame, rest: Bytes)
    requires buf != [] && IsRespType(buf[0])
    ensures Parse(buf, true) == Got(f, rest)
       <==> exists s :: Spells(s, f, 0) && buf == Written(s) + rest && |Written(s)| <= 64 * 1024 * 1024
  {
    hide ParseFrame, Spells, Written;
    if Parse(buf, true) == Got(f, rest) {
      var s := ReadIsSpelled(buf, 0, 0);
      assert buf == buf[..|Written(s)|] + rest;
    }
    if s :| Spells(s, f, 0) && buf == Written(s) + rest && |Written(s)| <= 64 * 1024 * 1024 {
      assert At(buf, 0, Written(s));
      SpelledIsRead(buf, 0, 0, s, f);
      assert buf[|Written(s)|..] == rest;
    }
  }
}
