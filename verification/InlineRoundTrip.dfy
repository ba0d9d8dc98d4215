/** Inline commands: any arguments can be quoted so that the parser reads exactly them back
    (`parse_inline` and `split_inline_args` in `src/resp/parser.rs`). */
module InlineRoundTrip {
  import opened Base
  import opened Frames
  import opened Parser

  predicate IsBytes(s: Bytes) {
    forall i :: 0 <= i < |s| ==> s[i] as int < 256
  }

  function HexDigit(n: nat): (c: char)
    requires n < 16
    ensures HexValue(c) == Some(n)
  {
    if n < 10 then '0' + n as char else 'a' + (n - 10) as char
  }

  /** Each byte as `\xHH`. */
  function Escaped(s: Bytes): (r: Bytes)
    requires IsBytes(s)
    ensures |r| == 4 * |s|
  {
    if s == [] then []
    else ['\\', 'x', HexDigit(s[0] as int / 16), HexDigit(s[0] as int % 16)] + Escaped(s[1..])
  }

  function Quoted(s: Bytes): Bytes
    requires IsBytes(s)
  {
    "\"" + Escaped(s) + "\""
  }

  function Joined(args: seq<Bytes>): Bytes
    requires forall i :: 0 <= i < |args| ==> IsBytes(args[i])
  {
    if args == [] then [] else Quoted(args[0]) + " " + Joined(args[1..])
  }

  lemma {:induction false} ReadsEscaped(line: Bytes, i: nat, out: Bytes, s: Bytes, rest: Bytes)
    requires IsBytes(s) && i <= |line| && line[i..] == Escaped(s) + "\"" + rest
    ensures ReadQuoted(line, i, out, '"') == Some((out + s, i + 4 * |s| + 1))
    decreases |s|
  {
    hide HexDigit, HexValue, Escaped;
    if s == [] {
      assert line[i..][0] == '"';
      assert out + s == out;
    } else {
      OneEscaped(line, i, s, rest);
      ReadsEscaped(line, i + 4, out + [s[0]], s[1..], rest);
      assert (out + [s[0]]) + s[1..] == out + s;
    }
  }

  lemma OneEscaped(line: Bytes, i: nat, s: Bytes, rest: Bytes)
    requires IsBytes(s) && s != [] && i <= |line| && line[i..] == Escaped(s) + "\"" + rest
    ensures i + 4 < |line| && line[i] == '\\' && line[i + 1] == 'x'
    ensures HexValue(line[i + 2]) == Some(s[0] as int / 16) && HexValue(line[i + 3]) == Some(s[0] as int % 16)
    ensures line[i + 4..] == Escaped(s[1..]) + "\"" + rest
  {
    hide HexDigit, HexValue, Escaped;
    var high, low, more := HexDigit(s[0] as int / 16), HexDigit(s[0] as int % 16), Escaped(s[1..]) + "\"" + rest;
    EscapedCons(s);
    assert line[i..] == ['\\', 'x', high, low] + more;
  }

  lemma EscapedCons(s: Bytes)
    requires IsBytes(s) && s != []
    ensures Escaped(s) == ['\\', 'x', HexDigit(s[0] as int / 16), HexDigit(s[0] as int % 16)] + Escaped(s[1..])
  {
  }

  lemma ReadsQuoted(line: Bytes, i: nat, s: Bytes, rest: Bytes)
    requires IsBytes(s) && i <= |line| && line[i..] == Quoted(s) + " " + rest
    ensures ReadArg(line, i, []) == Some((s, i + 4 * |s| + 2))
    ensures i + 4 * |s| + 2 < |line| && line[i] == '"' && line[i + 4 * |s| + 2] == ' '
    ensures line[i + 4 * |s| + 3..] == rest
  {
    hide Escaped, ReadQuoted;
    var tail, end := line[i..], i + 4 * |s| + 2;
    assert tail[0] == line[i] == '"';
    assert line[i + 1..] == tail[1..] == Escaped(s) + "\"" + (" " + rest);
    assert tail[4 * |s| + 2] == line[end] == ' ';
    assert tail[4 * |s| + 3..] == line[end + 1..];
    ReadsEscaped(line, i + 1, [], s, " " + rest);
    assert [] + s == s;
    assert ReadArg(line, end, s) == Some((s, end));
  }

  lemma SkipsOneSpace(line: Bytes, i: nat)
    requires i < |line| && line[i] == ' '
    ensures SplitArgs(line, i) == SplitArgs(line, i + 1)
  {
    hide ReadArg;
    assert SkipSpaces(line, i) == SkipSpaces(line, i + 1);
  }

  lemma {:induction false} SplitsJoined(line: Bytes, i: nat, args: seq<Bytes>)
    requires (forall j :: 0 <= j < |args| ==> IsBytes(args[j])) && i <= |line| && line[i..] == Joined(args)
    ensures SplitArgs(line, i) == Some(args)
    decreases |args|
  {
    hide Quoted, ReadArg, SkipSpaces;
    if args == [] {
    } else {
      ReadsQuoted(line, i, args[0], Joined(args[1..]));
      var end := i + 4 * |args[0]| + 2;
      SplitsJoined(line, end + 1, args[1..]);
      SkipsOneSpace(line, end);
      SplitStep(line, i, args[0], end, args[1..]);
      assert [args[0]] + args[1..] == args;
    }
  }

  lemma SplitStep(line: Bytes, i: nat, arg: Bytes, end: nat, rest: seq<Bytes>)
    requires i < |line| && line[i] == '"' && end <= |line|
    requires ReadArg(line, i, []) == Some((arg, end)) && SplitArgs(line, end) == Some(rest)
    ensures SplitArgs(line, i) == Some([arg] + rest)
  {
    hide ReadArg;
    assert SkipSpaces(line, i) == i;
  }

  lemma {:induction false} NoLfEscaped(s: Bytes)
    requires IsBytes(s)
    ensures '\n' !in Escaped(s)
  {
    if s != [] {
      NoLfEscaped(s[1..]);
    }
  }

  lemma {:induction false} NoLfJoined(args: seq<Bytes>)
    requires forall j :: 0 <= j < |args| ==> IsBytes(args[j])
    ensures '\n' !in Joined(args)
    ensures args != [] ==> Joined(args) != [] && Joined(args)[0] == '"'
  {
    hide Escaped;
    if args != [] {
      NoLfEscaped(args[0]);
      NoLfJoined(args[1..]);
    }
  }

  /** Quoted arguments on a line of at most 1 MiB parse to exactly those arguments, and what follows the
      line stays in the buffer. */
  lemma InlineReadsBack(args: seq<Bytes>, rest: Bytes, lax: bool)
    requires args != [] && (forall j :: 0 <= j < |args| ==> IsBytes(args[j])) && |Joined(args)| < MAX_LINE_LEN
    ensures Parse(Joined(args) + "\r\n" + rest, lax) == Got(Array(Bulks(args)), rest)
  {
    hide Joined, SplitArgs, ParseResp;
    var line := Joined(args);
    var buf := line + "\r\n" + rest;
    NoLfJoined(args);
    assert line[0..] == line;
    SplitsJoined(line, 0, args);
    var lf := |line| + 1;
    assert buf[lf] == '\n';
    forall j: nat | j < lf
      ensures buf[j] != '\n'
    {
      assert j < |line| ==> buf[j] == line[j] && line[j] in line;
    }
    assert FindLf(buf, 0) == Some(lf);
    assert buf[..lf] == line + "\r";
    assert ChompCr(line + "\r") == line;
    assert buf[lf + 1..] == rest;
    assert buf[0] == '"';
  }
}
