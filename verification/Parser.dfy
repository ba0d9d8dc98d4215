/** The streaming RESP2 and inline-command parser (`src/resp/parser.rs`), as functions of the buffer.

    `lax` selects between two parsers. `lax == true` is the program: a header line that is already
    terminated is accepted whatever its length. `lax == false` applies the line limit to every line;
    it serves only to say for which inputs the program's answer does not depend on how they arrive. */
module Parser {
  import opened Base
  import opened Limits
  import opened Frames
  import Utf8

  const MAX_ARRAY_LEN: nat := 1024 * 1024
  const MAX_NESTING_DEPTH: nat := 128
  const MAX_LINE_LEN: nat := 1024 * 1024

  datatype Reason =
    | LongLine | InvalidUtf8 | InvalidInteger | NegativeLen | BulkTooLong | ArrayTooLong
    | MissingCrlf | TooDeep | BadTypeByte | FrameTooLong | LongInline | BadInline

  /** What a cursor operation yields: a value and the position after it, or why there is none. */
  datatype Parsed<+T> = Done(value: T, pos: nat) | Incomplete | Bad(reason: Reason) {
    predicate IsFailure() { !Done? }
    function PropagateFailure<U>(): Parsed<U>
      requires !Done?
    {
      if Incomplete? then Incomplete else Bad(reason)
    }
    function Extract(): (T, nat) requires Done? { (value, pos) }
  }

  // ---- lines ----

  predicate IsCrlf(buf: Bytes, i: nat) {
    i + 1 < |buf| && buf[i] == '\r' && buf[i + 1] == '\n'
  }

  /** First CRLF at or after `start`. */
  function FindCrlf(buf: Bytes, start: nat): (r: Option<nat>)
    ensures r.Some? ==> start <= r.value && IsCrlf(buf, r.value)
    ensures r.Some? ==> forall j: nat :: start <= j < r.value ==> !IsCrlf(buf, j)
    ensures r.None? ==> forall j: nat :: start <= j ==> !IsCrlf(buf, j)
    decreases |buf| - start
  {
    if start + 1 >= |buf| then None
    else if IsCrlf(buf, start) then Some(start)
    else FindCrlf(buf, start + 1)
  }

  /** First LF at or after `start`. */
  function FindLf(buf: Bytes, start: nat): (r: Option<nat>)
    ensures r.Some? ==> start <= r.value < |buf| && buf[r.value] == '\n'
    ensures r.Some? ==> forall j: nat :: start <= j < r.value ==> buf[j] != '\n'
    ensures r.None? ==> forall j: nat :: start <= j < |buf| ==> buf[j] != '\n'
    decreases |buf| - start
  {
    if start >= |buf| then None
    else if buf[start] == '\n' then Some(start)
    else FindLf(buf, start + 1)
  }

  function ReadLine(buf: Bytes, pos: nat, lax: bool): (r: Parsed<Bytes>)
    requires pos <= |buf|
    ensures r.Done? ==> pos + 2 <= r.pos <= |buf|
  {
    match FindCrlf(buf, pos)
    case Some(crlf) =>
      if !lax && crlf - pos >= MAX_LINE_LEN then Bad(LongLine) else Done(buf[pos..crlf], crlf + 2)
    case None =>
      if |buf| - pos > MAX_LINE_LEN then Bad(LongLine) else Incomplete
  }

  function ReadLineString(buf: Bytes, pos: nat, lax: bool): (r: Parsed<Bytes>)
    requires pos <= |buf|
    ensures r.Done? ==> pos + 2 <= r.pos <= |buf|
  {
    var (line, next) :- ReadLine(buf, pos, lax);
    if Utf8.Valid(line) then Done(line, next) else Bad(InvalidUtf8)
  }

  /** `str::parse::<i64>` fails on every line that is not ASCII, so no UTF-8 check is needed. */
  function ReadLineInt(buf: Bytes, pos: nat, lax: bool): (r: Parsed<int>)
    requires pos <= |buf|
    ensures r.Done? ==> pos + 2 <= r.pos <= |buf| && IsI64(r.value)
  {
    var (line, next) :- ReadLine(buf, pos, lax);
    match ParseI64(line)
    case Some(n) => Done(n, next)
    case None => Bad(InvalidInteger)
  }

  // ---- frames ----

  function ParseFrame(buf: Bytes, pos: nat, depth: nat, lax: bool): (r: Parsed<Frame>)
    requires pos <= |buf|
    ensures r.Done? ==> pos < r.pos <= |buf|
    decreases |buf| - pos, 0, 0
  {
    if depth > MAX_NESTING_DEPTH then Bad(TooDeep)
    else if pos == |buf| then Incomplete
    else
      match buf[pos]
      case '+' =>
        var (text, next) :- ReadLineString(buf, pos + 1, lax);
        Done(Simple(text), next)
      case '-' =>
        var (text, next) :- ReadLineString(buf, pos + 1, lax);
        Done(Error(text), next)
      case ':' =>
        var (n, next) :- ReadLineInt(buf, pos + 1, lax);
        Done(Integer(n), next)
      case '$' => ParseBulk(buf, pos + 1, lax)
      case '*' => ParseArray(buf, pos + 1, depth, lax)
      case _ => Bad(BadTypeByte)
  }

  function ParseBulk(buf: Bytes, pos: nat, lax: bool): (r: Parsed<Frame>)
    requires pos <= |buf|
    ensures r.Done? ==> pos < r.pos <= |buf|
  {
    var (len, start) :- ReadLineInt(buf, pos, lax);
    if len == -1 then Done(Null, start)
    else if len < 0 then Bad(NegativeLen)
    else if len > MAX_BULK_LEN || !BulkFrameFits(len) then Bad(BulkTooLong)
    else if |buf| - start < len + 2 then Incomplete
    else if !IsCrlf(buf, start + len) then Bad(MissingCrlf)
    else Done(Bulk(buf[start..start + len]), start + len + 2)
  }

  predicate BulkFrameFits(len: nat) {
    var n := RespBulkLen(len);
    n.Some? && n.value <= MAX_BUFFERED_FRAME_BYTES
  }

  function ParseArray(buf: Bytes, pos: nat, depth: nat, lax: bool): (r: Parsed<Frame>)
    requires pos <= |buf|
    ensures r.Done? ==> pos < r.pos <= |buf|
    decreases |buf| - pos, 2, 0
  {
    var (count, start) :- ReadLineInt(buf, pos, lax);
    if count == -1 then Done(NullArray, start)
    else if count < 0 then Bad(NegativeLen)
    else if count > MAX_ARRAY_LEN then Bad(ArrayTooLong)
    else
      var (items, next) :- ParseItems(buf, start, depth + 1, count, lax);
      Done(Array(items), next)
  }

  function ParseItems(buf: Bytes, pos: nat, depth: nat, count: nat, lax: bool): (r: Parsed<seq<Frame>>)
    requires pos <= |buf|
    ensures r.Done? ==> pos <= r.pos <= |buf| && |r.value| == count
    decreases |buf| - pos, 1, count
  {
    if count == 0 then Done([], pos)
    else
      var (first, next) :- ParseFrame(buf, pos, depth, lax);
      var (rest, end) :- ParseItems(buf, next, depth, count - 1, lax);
      Done([first] + rest, end)
  }

  // ---- inline commands ----

  predicate IsInlineSpace(c: char) {
    c == ' ' || c == '\t'
  }

  function HexValue(c: char): (r: Option<nat>)
    ensures r.Some? ==> r.value < 16
  {
    if '0' <= c <= '9' then Some((c - '0') as int)
    else if 'a' <= c <= 'f' then Some((c - 'a') as int + 10)
    else if 'A' <= c <= 'F' then Some((c - 'A') as int + 10)
    else None
  }

  function SkipSpaces(line: Bytes, i: nat): (j: nat)
    requires i <= |line|
    ensures i <= j <= |line|
    ensures j < |line| ==> !IsInlineSpace(line[j])
    decreases |line| - i
  {
    if i < |line| && IsInlineSpace(line[i]) then SkipSpaces(line, i + 1) else i
  }

  /** Reads up to the closing quote; `out` collects the argument and `None` is a protocol error. */
  function ReadQuoted(line: Bytes, i: nat, out: Bytes, quote: char): (r: Option<(Bytes, nat)>)
    requires i <= |line|
    ensures r.Some? ==> i < r.value.1 <= |line|
    decreases |line| - i
  {
    if i == |line| then None
    else if line[i] == quote then Some((out, i + 1))
    else if line[i] != '\\' then ReadQuoted(line, i + 1, out + [line[i]], quote)
    else if i + 1 == |line| then None
    else
      var (bytes, next) := Unescape(line, i + 1, quote);
      ReadQuoted(line, next, out + bytes, quote)
  }

  /** The byte an escape inside quotes stands for; `i` is the position after the backslash. */
  function Unescape(line: Bytes, i: nat, quote: char): (r: (Bytes, nat))
    requires i < |line|
    ensures i < r.1 <= |line|
  {
    var c := line[i];
    if quote != '"' then ([c], i + 1)
    else if c == 'n' then (['\n'], i + 1)
    else if c == 'r' then (['\r'], i + 1)
    else if c == 't' then (['\t'], i + 1)
    else if c == 'b' then ([8 as char], i + 1)
    else if c == 'a' then ([7 as char], i + 1)
    else if c == 'x' && i + 2 < |line| && HexValue(line[i + 1]).Some? && HexValue(line[i + 2]).Some? then
      ([(HexValue(line[i + 1]).value * 16 + HexValue(line[i + 2]).value) as char], i + 3)
    else ([c], i + 1)
  }

  function ReadArg(line: Bytes, i: nat, arg: Bytes): (r: Option<(Bytes, nat)>)
    requires i <= |line|
    ensures r.Some? ==> i <= r.value.1 <= |line|
    ensures r.Some? && i < |line| && !IsInlineSpace(line[i]) ==> i < r.value.1
    decreases |line| - i
  {
    if i == |line| || IsInlineSpace(line[i]) then Some((arg, i))
    else if line[i] == '\'' || line[i] == '"' then
      var (quoted, next) :- ReadQuoted(line, i + 1, arg, line[i]);
      ReadArg(line, next, quoted)
    else if line[i] == '\\' then
      if i + 1 == |line| then None else ReadArg(line, i + 2, arg + [line[i + 1]])
    else
      ReadArg(line, i + 1, arg + [line[i]])
  }

  function SplitArgs(line: Bytes, i: nat): Option<seq<Bytes>>
    requires i <= |line|
    decreases |line| - i
  {
    var start := SkipSpaces(line, i);
    if start == |line| then Some([])
    else
      var (arg, next) :- ReadArg(line, start, []);
      var rest :- SplitArgs(line, next);
      Some([arg] + rest)
  }

  datatype Inline = Command(frame: Frame) | Blank | Broken

  function InlineFrame(line: Bytes): Inline {
    match SplitArgs(line, 0)
    case None => Broken
    case Some(args) => if args == [] then Blank else Command(Array(Bulks(args)))
  }

  function Bulks(args: seq<Bytes>): seq<Frame> {
    seq(|args|, i requires 0 <= i < |args| => Bulk(args[i]))
  }

  function ChompCr(line: Bytes): Bytes {
    if line != [] && line[|line| - 1] == '\r' then line[..|line| - 1] else line
  }

  /** One inline line: a command or a blank line with the position after it, or none yet. */
  datatype Line = CommandLine(frame: Frame, next: nat) | BlankLine(next: nat) | OpenLine | BadLine(reason: Reason)

  function ParseInline(buf: Bytes): (r: Line)
    ensures r.CommandLine? || r.BlankLine? ==> 0 < r.next <= |buf|
  {
    match FindLf(buf, 0)
    case None => if |buf| > MAX_LINE_LEN then BadLine(LongInline) else OpenLine
    case Some(lf) =>
      if lf > MAX_LINE_LEN then BadLine(LongInline)
      else
        match InlineFrame(ChompCr(buf[..lf]))
        case Broken => BadLine(BadInline)
        case Command(frame) => CommandLine(frame, lf + 1)
        case Blank => BlankLine(lf + 1)
  }

  // ---- the buffer ----

  /** `Got` and `NeedMore` carry what stays in the buffer; blank inline lines are gone from it. */
  datatype Outcome = Got(frame: Frame, rest: Bytes) | NeedMore(rest: Bytes) | Fail(reason: Reason)

  predicate IsRespType(c: char) {
    c == '+' || c == '-' || c == ':' || c == '$' || c == '*'
  }

  function ParseResp(buf: Bytes, lax: bool): (r: Outcome)
    ensures r.Got? ==> |r.rest| < |buf|
    ensures r.NeedMore? ==> r.rest == buf
  {
    match ParseFrame(buf, 0, 0, lax)
    case Done(frame, n) => if n > MAX_BUFFERED_FRAME_BYTES then Fail(FrameTooLong) else Got(frame, buf[n..])
    case Incomplete => NeedMore(buf)
    case Bad(reason) => Fail(reason)
  }

  function Parse(buf: Bytes, lax: bool): (r: Outcome)
    ensures r.Got? ==> |r.rest| < |buf|
    ensures r.NeedMore? ==> |r.rest| <= |buf|
    decreases |buf|
  {
    if buf == [] then NeedMore([])
    else if IsRespType(buf[0]) then ParseResp(buf, lax)
    else
      match ParseInline(buf)
      case CommandLine(frame, next) => Got(frame, buf[next..])
      case BlankLine(next) => Parse(buf[next..], lax)
      case OpenLine => NeedMore(buf)
      case BadLine(reason) => Fail(reason)
  }
}
