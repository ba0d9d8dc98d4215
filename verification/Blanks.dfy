/** Blank inline lines, and what a part of the buffer says about the whole of it. */
module Blanks {
  import opened Base
  import opened Frames
  import opened Parser
  import opened Streaming

  // ---- blank lines ----

  predicate StartsBlank(buf: Bytes) {
    buf != [] && !IsRespType(buf[0]) && ParseInline(buf).BlankLine?
  }

  function AfterBlank(buf: Bytes): (rest: Bytes)
    requires StartsBlank(buf)
    ensures |rest| < |buf|
  {
    buf[ParseInline(buf).next..]
  }

  /** The buffer without its leading blank inline lines. */
  function SkipBlanks(buf: Bytes): (r: Bytes)
    ensures |r| <= |buf|
    decreases |buf|
  {
    if StartsBlank(buf) then SkipBlanks(AfterBlank(buf)) else buf
  }

  predicate IsSuffix(s: Bytes, buf: Bytes) {
    |s| <= |buf| && s == buf[|buf| - |s|..]
  }

  lemma SuffixOfSuffix(s: Bytes, t: Bytes, buf: Bytes)
    requires IsSuffix(s, t) && IsSuffix(t, buf)
    ensures IsSuffix(s, buf)
  {
  }

  lemma SuffixSplit(s: Bytes, buf: Bytes)
    requires IsSuffix(s, buf)
    ensures buf == buf[..|buf| - |s|] + s
  {
  }

  lemma Uncat(a: Bytes, b: Bytes)
    ensures (a + b)[..|a + b| - |b|] == a
  {
  }

  lemma {:induction false} SkipBlanksSuffix(buf: Bytes)
    ensures IsSuffix(SkipBlanks(buf), buf)
    decreases |buf|
  {
    if StartsBlank(buf) {
      SkipBlanksSuffix(AfterBlank(buf));
      SuffixOfSuffix(SkipBlanks(AfterBlank(buf)), AfterBlank(buf), buf);
    }
  }

  lemma ParseAfterBlank(buf: Bytes, lax: bool)
    requires StartsBlank(buf)
    ensures Parse(buf, lax) == Parse(AfterBlank(buf), lax)
  {
    hide ParseInline, ParseResp;
  }

  lemma BlankStands(a: Bytes, b: Bytes)
    requires StartsBlank(a)
    ensures StartsBlank(a + b) && AfterBlank(a + b) == AfterBlank(a) + b
  {
    hide ParseInline;
    ParseInlineExtend(a, b);
    assert (a + b)[0] == a[0];
  }

  lemma {:induction false} ParseSkipsBlanks(buf: Bytes, lax: bool)
    ensures Parse(buf, lax) == Parse(SkipBlanks(buf), lax)
    ensures Parse(buf, lax).NeedMore? ==> Parse(buf, lax).rest == SkipBlanks(buf)
    decreases |buf|
  {
    hide AfterBlank;
    if StartsBlank(buf) {
      ParseAfterBlank(buf, lax);
      ParseSkipsBlanks(AfterBlank(buf), lax);
    }
  }

  lemma {:induction false} SkipBlanksExtend(a: Bytes, b: Bytes)
    ensures SkipBlanks(a + b) == SkipBlanks(SkipBlanks(a) + b)
    decreases |a|
  {
    hide StartsBlank, AfterBlank;
    if StartsBlank(a) {
      BlankStands(a, b);
      SkipBlanksExtend(AfterBlank(a), b);
    }
  }

  lemma BlankLineStands(file: Bytes, n: nat)
    requires StartsBlank(file) && |file| - |AfterBlank(file)| <= n <= |file|
    ensures StartsBlank(file[..n])
    ensures AfterBlank(file[..n]) == AfterBlank(file)[..n - (|file| - |AfterBlank(file)|)]
  {
    hide InlineFrame;
    var part := file[..n];
    var lf := FindLf(file, 0).value;
    assert part[lf] == '\n' && FindLf(part, 0) == Some(lf);
    assert part[..lf] == file[..lf];
  }

  lemma {:induction false} ParseSuffix(file: Bytes)
    ensures var r := Parse(file, true); !r.Fail? ==> IsSuffix(r.rest, file)
    decreases |file|
  {
    hide ParseFrame, ParseInline;
    if file != [] && !IsRespType(file[0]) && ParseInline(file).BlankLine? {
      var rest := file[ParseInline(file).next..];
      ParseSuffix(rest);
      if !Parse(rest, true).Fail? {
        SuffixOfSuffix(Parse(rest, true).rest, rest, file);
      }
    }
  }

  // ---- a part of the buffer ----

  /** A frame found inside a part of the buffer is found in that part alone. */
  lemma {:induction false} ParseRestrict(a: Bytes, b: Bytes)
    requires var whole := Parse(a + b, true); whole.Got? && |whole.rest| >= |b|
    ensures Parse(a, true).Got?
    ensures Parse(a + b, true) == Got(Parse(a, true).frame, Parse(a, true).rest + b)
    decreases |a|
  {
    hide ParseResp, ParseInline, StartsBlank, AfterBlank, Parse;
    ParseExtend(a, b);
    var part := Parse(a, true);
    if part.NeedMore? {
      ParseSkipsBlanks(a, true);
      StillIncomplete(part.rest, b);
    } else if part == Fail(LongLine) {
      LongLineStays(a, b);
    }
  }

  /** If the bytes before `b` hold no frame, a frame found with `b` ends inside `b`. */
  lemma StillIncomplete(a: Bytes, b: Bytes)
    requires Parse(a, true) == NeedMore(a)
    ensures var whole := Parse(a + b, true); whole.Got? ==> |whole.rest| < |b|
  {
    hide ParseFrame;
    var whole := a + b;
    if a == [] {
      assert whole == b;
    } else {
      assert whole[0] == a[0] && whole[..|a|] == a;
      if IsRespType(a[0]) {
        ParseFrameLocal(whole, |a|, 0, 0);
      }
    }
  }

  /** A line over the limit with no end in `a` gives no frame that ends inside `a` either. */
  lemma {:induction false} LongLineStays(a: Bytes, b: Bytes)
    requires Parse(a, true) == Fail(LongLine)
    ensures var whole := Parse(a + b, true); whole.Got? ==> |whole.rest| < |b|
    decreases |a|
  {
    hide StartsBlank, AfterBlank, Parse;
    if StartsBlank(a) {
      ParseAfterBlank(a, true);
      BlankStands(a, b);
      ParseAfterBlank(a + b, true);
      LongLineStays(AfterBlank(a), b);
    } else {
      LongRespStays(a, b);
    }
  }

  lemma LongRespStays(a: Bytes, b: Bytes)
    requires Parse(a, true) == Fail(LongLine) && !StartsBlank(a)
    ensures var whole := Parse(a + b, true); whole.Got? ==> |whole.rest| < |b|
  {
    hide ParseFrame, InlineFrame;
    var whole := a + b;
    assert a != [] && whole[0] == a[0] && whole[..|a|] == a;
    assert IsRespType(a[0]);
    ParseFrameLocal(whole, |a|, 0, 0);
  }

  lemma RestrictStep(kept: Bytes, cut: Bytes, f: Frame, rest: Bytes)
    requires Parse(kept + cut, true) == Got(f, rest) && |cut| <= |rest|
    ensures Parse(kept, true) == Got(f, rest[..|rest| - |cut|])
  {
    hide Parse;
    ParseRestrict(kept, cut);
    Uncat(Parse(kept, true).rest, cut);
  }

  lemma KeptRestricts(file: Bytes, f: Frame, rest: Bytes, cut: Bytes)
    requires Parse(file, true) == Got(f, rest) && IsSuffix(cut, file) && |cut| <= |rest|
    ensures Parse(file[..|file| - |cut|], true) == Got(f, rest[..|rest| - |cut|])
  {
    hide Parse;
    var kept := file[..|file| - |cut|];
    SuffixSplit(cut, file);
    RestrictStep(kept, cut, f, rest);
  }
}
