/** The language of inline commands, and that the parser reads exactly it (`split_inline_args` and
    `read_inline_quoted` in `src/resp/parser.rs`). */
module InlineGrammar {
  import opened Base
  import opened Frames
  import opened Parser

  // ---- how a line is written ----

  /** Inside quotes: a byte as it is, one behind a backslash, or one in hexadecimal. */
  datatype Item = Raw(c: char) | Escape(c: char) | Hex(high: char, low: char)

  /** An argument is a string of such pieces. */
  datatype Piece = Bare(c: char) | Slash(c: char) | Single(items: seq<Item>) | Double(items: seq<Item>)

  function ItemText(item: Item): Bytes {
    match item
    case Raw(c) => [c]
    case Escape(c) => ['\\', c]
    case Hex(high, low) => ['\\', 'x', high, low]
  }

  function ItemsText(items: seq<Item>): Bytes {
    if items == [] then [] else ItemText(items[0]) + ItemsText(items[1..])
  }

  function PieceText(p: Piece): Bytes {
    match p
    case Bare(c) => [c]
    case Slash(c) => ['\\', c]
    case Single(items) => ['\''] + (ItemsText(items) + ['\''])
    case Double(items) => ['"'] + (ItemsText(items) + ['"'])
  }

  function Text(pieces: seq<Piece>): Bytes {
    if pieces == [] then [] else PieceText(pieces[0]) + Text(pieces[1..])
  }

  /** Blanks, an argument, blanks, and so on; one gap more than arguments. */
  function LineText(gaps: seq<Bytes>, args: seq<seq<Piece>>): Bytes
    requires |gaps| == |args| + 1
  {
    if args == [] then gaps[0] else gaps[0] + (Text(args[0]) + LineText(gaps[1..], args[1..]))
  }

  // ---- what it means ----

  /** A backslash inside double quotes; inside single quotes the byte behind it stands for itself. */
  function EscapeByte(c: char): char {
    match c
    case 'n' => 10 as char
    case 'r' => 13 as char
    case 't' => 9 as char
    case 'b' => 8 as char
    case 'a' => 7 as char
    case _ => c
  }

  function ItemByte(item: Item, quote: char): char {
    match item
    case Raw(c) => c
    case Escape(c) => if quote == '"' then EscapeByte(c) else c
    case Hex(high, low) => (16 * Digit(high) + Digit(low)) as char
  }

  function Digit(c: char): (n: nat)
    ensures n < 16
  {
    if HexValue(c).Some? then HexValue(c).value else 0
  }

  function ItemsBytes(items: seq<Item>, quote: char): Bytes {
    if items == [] then [] else [ItemByte(items[0], quote)] + ItemsBytes(items[1..], quote)
  }

  function PieceBytes(p: Piece): Bytes {
    match p
    case Bare(c) => [c]
    case Slash(c) => [c]
    case Single(items) => ItemsBytes(items, '\'')
    case Double(items) => ItemsBytes(items, '"')
  }

  function Meaning(pieces: seq<Piece>): Bytes {
    if pieces == [] then [] else PieceBytes(pieces[0]) + Meaning(pieces[1..])
  }

  function Meanings(args: seq<seq<Piece>>): seq<Bytes> {
    seq(|args|, i requires 0 <= i < |args| => Meaning(args[i]))
  }

  // ---- what may be written ----

  predicate IsHex(c: char) {
    HexValue(c).Some?
  }

  /** The sixteen digits, in either case, and no others. */
  lemma HexDigits(c: char, n: nat)
    ensures HexValue(c) == Some(n) <==> n < 16 && (c == "0123456789abcdef"[n] || c == "0123456789ABCDEF"[n])
  {
  }

  /** `\x` in double quotes that is not followed by two hexadecimal digits is an ordinary escape. */
  predicate ItemOk(item: Item, next: Bytes, quote: char) {
    match item
    case Raw(c) => c != quote && c != '\\'
    case Escape(c) => quote == '"' && c == 'x' ==> !(|next| >= 2 && IsHex(next[0]) && IsHex(next[1]))
    case Hex(high, low) => quote == '"' && IsHex(high) && IsHex(low)
  }

  predicate ItemsOk(items: seq<Item>, quote: char) {
    items == [] || (ItemOk(items[0], ItemsText(items[1..]) + [quote], quote) && ItemsOk(items[1..], quote))
  }

  predicate PieceOk(p: Piece) {
    match p
    case Bare(c) => !IsInlineSpace(c) && c != '\'' && c != '"' && c != '\\'
    case Slash(_) => true
    case Single(items) => ItemsOk(items, '\'')
    case Double(items) => ItemsOk(items, '"')
  }

  predicate ArgOk(pieces: seq<Piece>) {
    pieces != [] && forall i :: 0 <= i < |pieces| ==> PieceOk(pieces[i])
  }

  predicate Blank(gap: Bytes) {
    forall i :: 0 <= i < |gap| ==> gap[i] == ' ' || gap[i] == '\t'
  }

  predicate LineOk(gaps: seq<Bytes>, args: seq<seq<Piece>>) {
    && |gaps| == |args| + 1
    && (forall i :: 0 <= i < |gaps| ==> Blank(gaps[i]))
    && (forall i :: 0 < i < |args| ==> gaps[i] != [])
    && forall i :: 0 <= i < |args| ==> ArgOk(args[i])
  }

  // ---- whatever is written so is read so ----

  lemma Assoc(a: Bytes, b: Bytes, c: Bytes)
    ensures (a + b) + c == a + (b + c)
  {
  }

  lemma Behind(line: Bytes, i: nat, head: Bytes, more: Bytes)
    requires i <= |line| && line[i..] == head + more
    ensures i + |head| <= |line| && line[i + |head|..] == more
    ensures forall k :: 0 <= k < |head| ==> line[i + k] == head[k]
  {
    assert line[i + |head|..] == line[i..][|head|..];
    assert forall k :: 0 <= k < |head| ==> line[i + k] == line[i..][k];
  }

  lemma {:induction false} ReadsItems(line: Bytes, i: nat, out: Bytes, items: seq<Item>, quote: char, rest: Bytes)
    requires quote == '\'' || quote == '"'
    requires i <= |line| && line[i..] == ItemsText(items) + ([quote] + rest) && ItemsOk(items, quote)
    ensures ReadQuoted(line, i, out, quote) == Some((out + ItemsBytes(items, quote), i + |ItemsText(items)| + 1))
    decreases |items|
  {
    hide ReadQuoted, HexValue, ItemsText, ItemsBytes, ItemText, ItemByte, ItemOk, Unescape;
    ItemsTextIs(items, quote);
    if items == [] {
      EndsQuote(line, i, out, quote);
      assert line[i..][0] == quote;
      assert out + [] == out;
    } else {
      var head, more := ItemText(items[0]), ItemsText(items[1..]) + ([quote] + rest);
      Assoc(head, ItemsText(items[1..]), [quote] + rest);
      Behind(line, i, head, more);
      OneItem(line, i, out, items[0], quote, ItemsText(items[1..]), rest);
      ReadsItems(line, i + |head|, out + [ItemByte(items[0], quote)], items[1..], quote, rest);
      Assoc(out, [ItemByte(items[0], quote)], ItemsBytes(items[1..], quote));
    }
  }

  lemma ItemsTextIs(items: seq<Item>, quote: char)
    ensures items == [] ==> ItemsText(items) == ItemsBytes(items, quote) == []
    ensures items != [] ==>
      && ItemsText(items) == ItemText(items[0]) + ItemsText(items[1..])
      && ItemsBytes(items, quote) == [ItemByte(items[0], quote)] + ItemsBytes(items[1..], quote)
  {
    hide ItemText, ItemByte;
  }

  lemma EndsQuote(line: Bytes, i: nat, out: Bytes, quote: char)
    requires i <= |line| && line[i..] != [] && line[i..][0] == quote
    ensures ReadQuoted(line, i, out, quote) == Some((out, i + 1))
  {
  }

  lemma OneItem(line: Bytes, i: nat, out: Bytes, item: Item, quote: char, next: Bytes, rest: Bytes)
    requires quote == '\'' || quote == '"'
    requires var head := ItemText(item);
      && i + |head| <= |line| && line[i + |head|..] == next + ([quote] + rest)
      && forall k :: 0 <= k < |head| ==> line[i + k] == head[k]
    requires ItemOk(item, next + [quote], quote)
    ensures ReadQuoted(line, i, out, quote) == ReadQuoted(line, i + |ItemText(item)|, out + [ItemByte(item, quote)], quote)
  {
    hide HexValue;
    var head := ItemText(item);
    var tail := next + [quote];
    assert forall k :: 0 <= k < |tail| ==> line[i + |head| + k] == line[i + |head|..][k] == tail[k];
    QuotesAreNoDigits();
    assert i < |line| && line[i] == head[0];
    match item
    case Raw(c) => assert line[i] == c;
    case Escape(c) =>
      assert line[i + 1] == head[1] == c;
      if quote == '"' && c == 'x' {
        assert tail[0] == line[i + 2];
        if |tail| >= 2 {
          assert tail[1] == line[i + 3];
        } else {
          assert tail[0] == quote;
        }
      }
    case Hex(high, low) =>
      assert line[i + 1] == head[1] && line[i + 2] == head[2] && line[i + 3] == head[3];
  }

  lemma QuotesAreNoDigits()
    ensures HexValue('\'').None? && HexValue('"').None?
  {
  }

  lemma {:induction false} ReadsPieces(line: Bytes, i: nat, arg: Bytes, pieces: seq<Piece>, rest: Bytes)
    requires i <= |line| && line[i..] == Text(pieces) + rest && (rest != [] ==> IsInlineSpace(rest[0]))
    requires forall k :: 0 <= k < |pieces| ==> PieceOk(pieces[k])
    ensures ReadArg(line, i, arg) == Some((arg + Meaning(pieces), i + |Text(pieces)|))
    decreases |pieces|
  {
    hide ReadArg, Text, Meaning, PieceOk, PieceText, PieceBytes;
    TextIs(pieces);
    if pieces == [] {
      assert line[i..] == rest;
      ArgEnds(line, i, arg);
      assert arg + [] == arg;
    } else {
      var head, more := PieceText(pieces[0]), Text(pieces[1..]) + rest;
      Assoc(head, Text(pieces[1..]), rest);
      Behind(line, i, head, more);
      OnePiece(line, i, arg, pieces[0], more);
      ReadsPieces(line, i + |head|, arg + PieceBytes(pieces[0]), pieces[1..], rest);
      Assoc(arg, PieceBytes(pieces[0]), Meaning(pieces[1..]));
    }
  }

  lemma TextIs(pieces: seq<Piece>)
    ensures pieces == [] ==> Text(pieces) == Meaning(pieces) == []
    ensures pieces != [] ==>
      && Text(pieces) == PieceText(pieces[0]) + Text(pieces[1..])
      && Meaning(pieces) == PieceBytes(pieces[0]) + Meaning(pieces[1..])
  {
  }

  lemma ArgEnds(line: Bytes, i: nat, arg: Bytes)
    requires i <= |line| && (line[i..] != [] ==> IsInlineSpace(line[i..][0]))
    ensures ReadArg(line, i, arg) == Some((arg, i))
  {
  }

  lemma OnePiece(line: Bytes, i: nat, arg: Bytes, p: Piece, more: Bytes)
    requires i <= |line| && line[i..] == PieceText(p) + more && PieceOk(p)
    ensures i + |PieceText(p)| <= |line|
    ensures ReadArg(line, i, arg) == ReadArg(line, i + |PieceText(p)|, arg + PieceBytes(p))
  {
    hide ItemsText, ItemsBytes, ItemsOk, ReadQuoted;
    var head := PieceText(p);
    Behind(line, i, head, more);
    assert line[i] == line[i + 0] == head[0];
    match p
    case Bare(c) =>
    case Slash(c) => assert line[i + 1] == head[1];
    case Single(items) => QuotedPiece(line, i, arg, items, '\'', more);
    case Double(items) => QuotedPiece(line, i, arg, items, '"', more);
  }

  lemma QuotedPiece(line: Bytes, i: nat, arg: Bytes, items: seq<Item>, quote: char, more: Bytes)
    requires quote == '\'' || quote == '"'
    requires i <= |line| && line[i..] == ([quote] + (ItemsText(items) + [quote])) + more && ItemsOk(items, quote)
    ensures i < |line|
    ensures ReadQuoted(line, i + 1, arg, quote) == Some((arg + ItemsBytes(items, quote), i + |ItemsText(items)| + 2))
  {
    hide ItemsText, ItemsBytes, ItemsOk, ReadQuoted;
    assert line[i..] == [quote] + (ItemsText(items) + ([quote] + more));
    Behind(line, i, [quote], ItemsText(items) + ([quote] + more));
    ReadsItems(line, i + 1, arg, items, quote, more);
  }

  lemma {:induction false} SkipsGap(line: Bytes, i: nat, gap: Bytes, more: Bytes)
    requires i <= |line| && line[i..] == gap + more && Blank(gap) && (more != [] ==> !IsInlineSpace(more[0]))
    ensures SkipSpaces(line, i) == i + |gap|
    decreases |gap|
  {
    Behind(line, i, gap, more);
    if gap == [] {
      assert i < |line| ==> line[i] == line[i..][0] == more[0];
    } else {
      assert line[i] == line[i + 0] == gap[0];
      assert line[i + 1..] == line[i..][1..] == gap[1..] + more;
      SkipsGap(line, i + 1, gap[1..], more);
    }
  }

  lemma PieceStarts(pieces: seq<Piece>)
    requires ArgOk(pieces)
    ensures Text(pieces) != [] && !IsInlineSpace(Text(pieces)[0])
  {
    hide ItemsText, ItemsOk;
    assert PieceOk(pieces[0]);
  }

  lemma {:induction false} ReadsLine(line: Bytes, i: nat, gaps: seq<Bytes>, args: seq<seq<Piece>>)
    requires LineOk(gaps, args) && i <= |line| && line[i..] == LineText(gaps, args)
    ensures SplitArgs(line, i) == Some(Meanings(args))
    decreases |args|
  {
    hide ReadArg, SkipSpaces, SplitArgs, Text, Meaning, ArgOk, Blank;
    if args == [] {
      assert line[i..] == gaps[0] + [];
      SkipsGap(line, i, gaps[0], []);
      NoArgs(line, i);
    } else {
      var text, more := Text(args[0]), LineText(gaps[1..], args[1..]);
      var start := i + |gaps[0]|;
      PieceStarts(args[0]);
      SkipsGap(line, i, gaps[0], text + more);
      Behind(line, i, gaps[0], text + more);
      RestOk(gaps, args);
      ReadsArg(line, start, args[0], more);
      Behind(line, start, text, more);
      ReadsLine(line, start + |text|, gaps[1..], args[1..]);
      OneArg(line, i);
      assert [Meaning(args[0])] + Meanings(args[1..]) == Meanings(args);
    }
  }

  lemma NoArgs(line: Bytes, i: nat)
    requires i <= |line| && SkipSpaces(line, i) == |line|
    ensures SplitArgs(line, i) == Some([])
  {
    hide SkipSpaces, ReadArg;
  }

  lemma OneArg(line: Bytes, i: nat)
    requires i <= |line| && SkipSpaces(line, i) < |line| && ReadArg(line, SkipSpaces(line, i), []).Some?
    ensures var (arg, next) := ReadArg(line, SkipSpaces(line, i), []).value;
      SplitArgs(line, i) == var rest := SplitArgs(line, next); if rest.Some? then Some([arg] + rest.value) else None
  {
    hide SkipSpaces, ReadArg;
  }

  lemma RestOk(gaps: seq<Bytes>, args: seq<seq<Piece>>)
    requires LineOk(gaps, args) && args != []
    ensures LineOk(gaps[1..], args[1..])
    ensures var more := LineText(gaps[1..], args[1..]); more != [] ==> IsInlineSpace(more[0])
  {
    hide ArgOk, Text;
    assert Blank(gaps[1]);
    assert forall k :: 0 <= k < |gaps[1..]| ==> gaps[1..][k] == gaps[k + 1];
    assert forall k :: 0 <= k < |args[1..]| ==> args[1..][k] == args[k + 1];
    if |args| > 1 {
      assert gaps[1] != [];
    }
  }

  lemma ReadsArg(line: Bytes, i: nat, pieces: seq<Piece>, more: Bytes)
    requires i <= |line| && line[i..] == Text(pieces) + more && (more != [] ==> IsInlineSpace(more[0])) && ArgOk(pieces)
    ensures ReadArg(line, i, []) == Some((Meaning(pieces), i + |Text(pieces)|))
  {
    hide ReadArg, PieceOk, Text, Meaning;
    ReadsPieces(line, i, [], pieces, more);
    assert [] + Meaning(pieces) == Meaning(pieces);
  }

  // ---- and nothing else is read ----

  lemma Ahead(line: Bytes, i: nat, head: Bytes)
    requires i + |head| <= |line| && forall k :: 0 <= k < |head| ==> line[i + k] == head[k]
    ensures line[i..] == head + line[i + |head|..]
  {
  }

  lemma {:induction false} ItemsRead(line: Bytes, i: nat, out: Bytes, quote: char) returns (items: seq<Item>)
    requires (quote == '\'' || quote == '"') && i <= |line| && ReadQuoted(line, i, out, quote).Some?
    ensures var (r, j) := ReadQuoted(line, i, out, quote).value;
      line[i..] == ItemsText(items) + ([quote] + line[j..]) && r == out + ItemsBytes(items, quote) && ItemsOk(items, quote)
    decreases |line| - i
  {
    hide ReadQuoted, HexValue, ItemsText, ItemsBytes, ItemText, ItemByte, ItemOk, ItemAt;
    var (r, j) := ReadQuoted(line, i, out, quote).value;
    QuoteCases(line, i, out, quote);
    if line[i] == quote {
      items := [];
      ItemsTextIs(items, quote);
    } else {
      var item := ItemAt(line, i, quote);
      var head, next := ItemText(item), i + |ItemText(item)|;
      var more := ItemsRead(line, next, out + [ItemByte(item, quote)], quote);
      items := [item] + more;
      assert items[1..] == more;
      ItemsTextIs(items, quote);
      ItemFits(line, i, quote, ItemsText(more), j);
      Assoc(head, ItemsText(more), [quote] + line[j..]);
      Assoc(out, [ItemByte(item, quote)], ItemsBytes(more, quote));
    }
  }

  /** What stands at the front of the rest of a quoted string that is read to its end. */
  lemma QuoteCases(line: Bytes, i: nat, out: Bytes, quote: char)
    requires (quote == '\'' || quote == '"') && i <= |line| && ReadQuoted(line, i, out, quote).Some?
    ensures i < |line|
    ensures line[i] == quote ==>
      && ReadQuoted(line, i, out, quote) == Some((out, i + 1))
      && line[i..] == [quote] + line[i + 1..]
    ensures line[i] != quote ==>
      && (line[i] == '\\' ==> i + 1 < |line|)
      && var item := ItemAt(line, i, quote);
      var next := i + |ItemText(item)|;
      && i < next <= |line| && line[i..] == ItemText(item) + line[next..]
      && ReadQuoted(line, i, out, quote) == ReadQuoted(line, next, out + [ItemByte(item, quote)], quote)
  {
    hide HexValue;
    if line[i] != quote {
      Ahead(line, i, ItemText(ItemAt(line, i, quote)));
    }
  }

  lemma ItemFits(line: Bytes, i: nat, quote: char, more: Bytes, j: nat)
    requires i < |line| && line[i] != quote && (line[i] == '\\' ==> i + 1 < |line|) && j <= |line|
    requires var next := i + |ItemText(ItemAt(line, i, quote))|;
      next <= |line| && line[next..] == more + ([quote] + line[j..])
    ensures ItemOk(ItemAt(line, i, quote), more + [quote], quote)
  {
    hide HexValue;
    var next := i + |ItemText(ItemAt(line, i, quote))|;
    assert forall k :: 0 <= k < |more| + 1 ==> (more + [quote])[k] == line[next..][k] == line[next + k];
  }

  /** The piece inside quotes that begins here. */
  function ItemAt(line: Bytes, i: nat, quote: char): Item
    requires i < |line| && (line[i] == '\\' ==> i + 1 < |line|)
  {
    if line[i] != '\\' then Raw(line[i])
    else if quote == '"' && line[i + 1] == 'x' && i + 3 < |line| && IsHex(line[i + 2]) && IsHex(line[i + 3]) then
      Hex(line[i + 2], line[i + 3])
    else Escape(line[i + 1])
  }

  lemma {:induction false} PiecesRead(line: Bytes, i: nat, arg: Bytes) returns (pieces: seq<Piece>)
    requires i <= |line| && ReadArg(line, i, arg).Some?
    ensures var (r, j) := ReadArg(line, i, arg).value;
      && line[i..] == Text(pieces) + line[j..] && r == arg + Meaning(pieces) && (j < |line| ==> IsInlineSpace(line[j]))
      && forall k :: 0 <= k < |pieces| ==> PieceOk(pieces[k])
    decreases |line| - i
  {
    hide ReadArg, PieceText, PieceBytes, PieceOk;
    var (r, j) := ReadArg(line, i, arg).value;
    if i == |line| || IsInlineSpace(line[i]) {
      pieces := [];
      ArgEnds(line, i, arg);
    } else {
      var p := PieceRead(line, i, arg);
      var head, next := PieceText(p), i + |PieceText(p)|;
      var more := PiecesRead(line, next, arg + PieceBytes(p));
      pieces := [p] + more;
      assert pieces[1..] == more;
      Assoc(head, Text(more), line[j..]);
      Assoc(arg, PieceBytes(p), Meaning(more));
    }
  }

  lemma PieceRead(line: Bytes, i: nat, arg: Bytes) returns (p: Piece)
    requires i < |line| && !IsInlineSpace(line[i]) && ReadArg(line, i, arg).Some?
    ensures PieceOk(p) && PieceText(p) != [] && i + |PieceText(p)| <= |line|
    ensures line[i..] == PieceText(p) + line[i + |PieceText(p)|..]
    ensures ReadArg(line, i, arg) == ReadArg(line, i + |PieceText(p)|, arg + PieceBytes(p))
  {
    hide ItemsText, ItemsBytes, ItemsOk, ReadQuoted;
    var c := line[i];
    if c == '\'' || c == '"' {
      var items := ItemsRead(line, i + 1, arg, c);
      p := if c == '"' then Double(items) else Single(items);
      var j := ReadQuoted(line, i + 1, arg, c).value.1;
      assert line[i..] == [c] + line[i + 1..];
      Assoc([c], ItemsText(items) + [c], line[j..]);
      Assoc(ItemsText(items), [c], line[j..]);
      assert |line[i..]| == |PieceText(p)| + |line[j..]|;
    } else {
      p := if c == '\\' then Slash(line[i + 1]) else Bare(c);
      Ahead(line, i, PieceText(p));
    }
  }

  lemma {:induction false} LineRead(line: Bytes, i: nat) returns (gaps: seq<Bytes>, args: seq<seq<Piece>>)
    requires i <= |line| && SplitArgs(line, i).Some?
    ensures LineOk(gaps, args) && line[i..] == LineText(gaps, args) && SplitArgs(line, i) == Some(Meanings(args))
    ensures i < |line| && IsInlineSpace(line[i]) ==> gaps[0] != []
    decreases |line| - i
  {
    hide ReadArg, SkipSpaces, SplitArgs, Text, Meaning, PieceOk, Blank;
    var start := SkipSpaces(line, i);
    var gap := line[i..start];
    GapRead(line, i);
    assert line[i..] == gap + line[start..];
    if start == |line| {
      gaps, args := [gap], [];
      NoArgs(line, i);
      assert Meanings(args) == [];
    } else {
      SomeArg(line, i);
      OneArg(line, i);
      var (arg, next) := ReadArg(line, start, []).value;
      var pieces := PiecesRead(line, start, []);
      var moreGaps, moreArgs := LineRead(line, next);
      gaps, args := [gap] + moreGaps, [pieces] + moreArgs;
      assert gaps[1..] == moreGaps && args[1..] == moreArgs;
      assert [] + Meaning(pieces) == Meaning(pieces);
      assert Meanings(args) == [arg] + Meanings(moreArgs);
      TextOfNothing(pieces, line[start..], line[next..]);
      if next == |line| {
        AtTheEnd(line);
        assert |moreArgs| == |Meanings(moreArgs)| == 0;
      }
      LineOkCons(gap, pieces, moreGaps, moreArgs);
    }
  }

  lemma AtTheEnd(line: Bytes)
    ensures SplitArgs(line, |line|) == Some([])
  {
  }

  lemma LineOkCons(gap: Bytes, pieces: seq<Piece>, gaps: seq<Bytes>, args: seq<seq<Piece>>)
    requires Blank(gap) && ArgOk(pieces) && LineOk(gaps, args) && (args != [] ==> gaps[0] != [])
    ensures LineOk([gap] + gaps, [pieces] + args)
  {
    hide Blank, ArgOk;
  }

  lemma TextOfNothing(pieces: seq<Piece>, whole: Bytes, rest: Bytes)
    requires whole == Text(pieces) + rest && |whole| > |rest|
    ensures pieces != []
  {
  }

  lemma SomeArg(line: Bytes, i: nat)
    requires i <= |line| && SkipSpaces(line, i) < |line| && SplitArgs(line, i).Some?
    ensures ReadArg(line, SkipSpaces(line, i), []).Some?
    ensures SplitArgs(line, ReadArg(line, SkipSpaces(line, i), []).value.1).Some?
  {
    hide SkipSpaces, ReadArg;
  }

  lemma {:induction false} GapRead(line: Bytes, i: nat)
    requires i <= |line|
    ensures Blank(line[i..SkipSpaces(line, i)])
    ensures i < |line| && IsInlineSpace(line[i]) ==> i < SkipSpaces(line, i)
    decreases |line| - i
  {
    if i < |line| && IsInlineSpace(line[i]) {
      GapRead(line, i + 1);
      assert line[i..SkipSpaces(line, i)] == [line[i]] + line[i + 1..SkipSpaces(line, i)];
    }
  }

  // ---- whole lines ----

  /** The line is a way to write these arguments. */
  ghost predicate Spells(line: Bytes, values: seq<Bytes>) {
    exists gaps, args :: LineOk(gaps, args) && LineText(gaps, args) == line && Meanings(args) == values
  }

  lemma SplitsIffSpelled(line: Bytes, values: seq<Bytes>)
    ensures SplitArgs(line, 0) == Some(values) <==> Spells(line, values)
  {
    hide SplitArgs, LineText;
    assert line[0..] == line;
    if Spells(line, values) {
      var gaps, args :| LineOk(gaps, args) && LineText(gaps, args) == line && Meanings(args) == values;
      ReadsLine(line, 0, gaps, args);
    }
    if SplitArgs(line, 0) == Some(values) {
      var gaps, args := LineRead(line, 0);
    }
  }

  /** The end of a line: a line feed, and a carriage return before it that is no part of the line. */
  predicate Ends(line: Bytes, end: Bytes) {
    end == "\r\n" || (end == "\n" && (line != [] ==> line[|line| - 1] != '\r'))
  }

  lemma LineIsFound(line: Bytes, end: Bytes, rest: Bytes)
    requires '\n' !in line && Ends(line, end)
    ensures var buf := line + end + rest;
      var lf := |line| + |end| - 1;
      FindLf(buf, 0) == Some(lf) && ChompCr(buf[..lf]) == line && buf[lf + 1..] == rest
  {
    var buf := line + end + rest;
    var lf := |line| + |end| - 1;
    assert buf[lf] == '\n';
    forall j: nat | j < lf
      ensures buf[j] != '\n'
    {
      assert j < |line| ==> buf[j] == line[j] && line[j] in line;
    }
    assert buf[..lf] == if end == "\n" then line else line + "\r";
  }

  /** An inline line of at most 1 MiB up to its line feed is read as exactly the arguments it is a way to write; a
      blank line is passed over; a line that is longer, or no way to write any arguments, is refused. */
  lemma InlineLinesAreRead(line: Bytes, end: Bytes, rest: Bytes, lax: bool)
    requires '\n' !in line && Ends(line, end) && (line != [] ==> !IsRespType(line[0]))
    ensures var r := Parse(line + end + rest, lax);
      if |line| + |end| - 1 > 1024 * 1024 then r.Fail?
      else
      && (forall values :: values != [] && Spells(line, values) ==> r == Got(Array(Bulks(values)), rest))
      && (Spells(line, []) ==> r == Parse(rest, lax))
      && ((forall values :: !Spells(line, values)) ==> r.Fail?)
  {
    hide SplitArgs, Spells, FindLf, ChompCr, Ends, ParseResp;
    var buf := line + end + rest;
    LineIsFound(line, end, rest);
    StartsLine(line, end, rest);
    forall values
      ensures SplitArgs(line, 0) == Some(values) <==> Spells(line, values)
    {
      SplitsIffSpelled(line, values);
    }
    if SplitArgs(line, 0).Some? {
      assert Spells(line, SplitArgs(line, 0).value);
    }
  }

  lemma StartsLine(line: Bytes, end: Bytes, rest: Bytes)
    requires Ends(line, end) && (line != [] ==> !IsRespType(line[0]))
    ensures var buf := line + end + rest; buf != [] && !IsRespType(buf[0])
  {
  }

  // ---- plain lines ----

  predicate IsPlain(arg: Bytes) {
    arg != [] && forall i :: 0 <= i < |arg| ==> PieceOk(Bare(arg[i])) && arg[i] != '\r' && arg[i] != '\n'
  }

  function Plain(arg: Bytes): (pieces: seq<Piece>)
    ensures |pieces| == |arg|
  {
    seq(|arg|, i requires 0 <= i < |arg| => Bare(arg[i]))
  }

  lemma {:induction false} PlainMeansItself(arg: Bytes)
    ensures Text(Plain(arg)) == arg && Meaning(Plain(arg)) == arg
  {
    if arg != [] {
      assert Plain(arg)[1..] == Plain(arg[1..]);
      PlainMeansItself(arg[1..]);
      assert [arg[0]] + arg[1..] == arg;
    }
  }

  /** Arguments with blanks before, between and behind them. */
  function Spaced(gaps: seq<Bytes>, args: seq<Bytes>): Bytes
    requires |gaps| == |args| + 1
  {
    if args == [] then gaps[0] else gaps[0] + (args[0] + Spaced(gaps[1..], args[1..]))
  }

  function Plains(args: seq<Bytes>): (r: seq<seq<Piece>>)
    ensures |r| == |args|
  {
    seq(|args|, i requires 0 <= i < |args| => Plain(args[i]))
  }

  lemma {:induction false} SpacedIsLine(gaps: seq<Bytes>, args: seq<Bytes>)
    requires |gaps| == |args| + 1
    ensures LineText(gaps, Plains(args)) == Spaced(gaps, args) && Meanings(Plains(args)) == args
    decreases |args|
  {
    hide Text, Meaning, Plain;
    if args != [] {
      assert Plains(args)[1..] == Plains(args[1..]);
      PlainMeansItself(args[0]);
      SpacedIsLine(gaps[1..], args[1..]);
      assert Meanings(Plains(args))[1..] == Meanings(Plains(args[1..]));
      assert [Meaning(Plain(args[0]))] + Meanings(Plains(args))[1..] == Meanings(Plains(args));
    }
  }

  /** Plain arguments, with any blanks between them, are read as they stand. */
  lemma PlainArgumentsAreRead(gaps: seq<Bytes>, args: seq<Bytes>, end: Bytes, rest: Bytes, lax: bool)
    requires args != [] && |gaps| == |args| + 1 && (forall i :: 0 <= i < |args| ==> IsPlain(args[i]))
    requires (forall i :: 0 <= i < |gaps| ==> Blank(gaps[i])) && forall i :: 0 < i < |args| ==> gaps[i] != []
    requires var line := Spaced(gaps, args);
      |line| + |end| - 1 <= 1024 * 1024 && Ends(line, end) && line != [] && !IsRespType(line[0])
    ensures Parse(Spaced(gaps, args) + end + rest, lax) == Got(Array(Bulks(args)), rest)
  {
    hide Parse, LineText, Spaced, Meanings, Blank, Ends;
    SpacedIsLine(gaps, args);
    assert LineOk(gaps, Plains(args));
    NoLfSpaced(gaps, args);
    InlineLinesAreRead(Spaced(gaps, args), end, rest, lax);
  }

  lemma {:induction false} NoLfSpaced(gaps: seq<Bytes>, args: seq<Bytes>)
    requires |gaps| == |args| + 1 && (forall i :: 0 <= i < |args| ==> IsPlain(args[i]))
    requires forall i :: 0 <= i < |gaps| ==> Blank(gaps[i])
    ensures '\n' !in Spaced(gaps, args)
    ensures args != [] ==> Spaced(gaps, args) != []
    decreases |args|
  {
    assert Blank(gaps[0]);
    if args != [] {
      assert IsPlain(args[0]);
      NoLfSpaced(gaps[1..], args[1..]);
    }
  }
}
